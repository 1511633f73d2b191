/** Retention of sync tombstones (backend/lifecycle.py) against the clients that read them. */
module TombstonePurge {
  import opened Collections

  datatype Key = Key(org: string, table: string, record: string)
  datatype Tombstone = Tombstone(version: nat, deletedAt: int)

  /** A row of sync_metadata. */
  datatype Meta = Meta(current: nat, minAvailable: nat)

  /** deletes remembers every deletion not undone by a restore; it is not stored by the system. */
  datatype Deletion = Deletion(key: Key, version: nat)

  datatype Sync = Sync(tombstones: map<Key, Tombstone>, meta: map<string, Meta>, deletes: set<Deletion>)

  const EMPTY := Sync(map[], map[], {})

  // ---- one committed transaction ------------------------------------------------------------

  function Bumped(meta: map<string, Meta>, org: string): map<string, Meta> {
    var m := if org in meta then meta[org] else Meta(0, 0);
    meta[org := m.(current := m.current + 1)]
  }

  /** The tombstone upsert: GREATEST of the stored and the new version. */
  function Upserted(tombstones: map<Key, Tombstone>, k: Key, version: nat, at: int): map<Key, Tombstone> {
    tombstones[k := Tombstone(
      if k in tombstones && tombstones[k].version > version then tombstones[k].version else version, at)]
  }

  ghost predicate VersionOf(tombstones: map<Key, Tombstone>, batch: set<Key>, org: string, v: nat) {
    exists k | k in batch :: k in tombstones && k.org == org && tombstones[k].version == v
  }

  /** Every watermark row becomes GREATEST(its value, the highest purged version of its organization). */
  ghost predicate Raised(
      tombstones: map<Key, Tombstone>, batch: set<Key>, before: map<string, Meta>, after: map<string, Meta>) {
    && after.Keys == before.Keys
    && forall o | o in before ::
         && after[o].current == before[o].current
         && after[o].minAvailable >= before[o].minAvailable
         && (forall v: nat | VersionOf(tombstones, batch, o, v) :: v <= after[o].minAvailable)
         && (after[o].minAvailable == before[o].minAvailable || VersionOf(tombstones, batch, o, after[o].minAvailable))
  }

  datatype Step =
    | Delete(key: Key, at: int)
    | Restore(key: Key)
    | Write(org: string)
    | Purge(batch: set<Key>)

  ghost predicate Next(s: Sync, step: Step, t: Sync) {
    match step
    case Delete(k, at) =>
      && t.meta == Bumped(s.meta, k.org)
      && t.tombstones == Upserted(s.tombstones, k, t.meta[k.org].current, at)
      && t.deletes == s.deletes + {Deletion(k, t.meta[k.org].current)}
    case Restore(k) =>
      && t.meta == Bumped(s.meta, k.org)
      && t.tombstones == s.tombstones - {k}
      && t.deletes == set d | d in s.deletes && d.key != k
    case Write(org) =>
      t == s.(meta := Bumped(s.meta, org))
    case Purge(batch) =>
      && batch <= s.tombstones.Keys
      && t.tombstones == s.tombstones - batch
      && Raised(s.tombstones, batch, s.meta, t.meta)
      && t.deletes == s.deletes
  }

  /** Any interleaving of deletions, restores, writes and purge batches, commit by commit. */
  ghost predicate Trace(states: seq<Sync>, steps: seq<Step>) {
    && |states| == |steps| + 1
    && states[0] == EMPTY
    && forall i | 0 <= i < |steps| :: Next(states[i], steps[i], states[i + 1])
  }

  // ---- what a client reads ------------------------------------------------------------------

  /** The delete rows of an incremental read after cursor, once the cursor is not FULL_SYNC_REQUIRED. */
  function DeltaDeletes(s: Sync, org: string, cursor: nat): set<Key> {
    set k | k in s.tombstones && k.org == org && s.tombstones[k].version > cursor
  }

  predicate CursorUsable(s: Sync, org: string, cursor: nat) {
    org in s.meta ==> cursor >= s.meta[org].minAvailable
  }

  // ---- invariant ----------------------------------------------------------------------------

  /** A deletion is still readable, or the watermark has passed it. */
  ghost predicate Covered(s: Sync, d: Deletion) {
    && d.key.org in s.meta && d.version <= s.meta[d.key.org].current
    && ((d.key in s.tombstones && s.tombstones[d.key].version >= d.version)
        || d.version <= s.meta[d.key.org].minAvailable)
  }

  ghost predicate Invariant(s: Sync) {
    && (forall k | k in s.tombstones :: k.org in s.meta && s.tombstones[k].version <= s.meta[k.org].current)
    && (forall o | o in s.meta :: s.meta[o].minAvailable <= s.meta[o].current)
    && (forall d | d in s.deletes :: Covered(s, d))
  }

  /** The version an organization reaches by one more change. */
  ghost predicate Advances(s: Sync, org: string, t: Sync) {
    && org in t.meta && (forall o :: o in t.meta <==> o in s.meta || o == org)
    && (if org in s.meta then t.meta[org] == Meta(s.meta[org].current + 1, s.meta[org].minAvailable)
        else t.meta[org] == Meta(1, 0))
    && (forall o | o in s.meta && o != org :: t.meta[o] == s.meta[o])
  }

  /** What each step but a purge leaves in the tables, in every reachable state. */
  lemma StepColumns(s: Sync, step: Step, t: Sync)
    requires Invariant(s) && Next(s, step, t)
    ensures step.Delete? ==>
              && Advances(s, step.key.org, t)
              && (forall k :: k in t.tombstones <==> k in s.tombstones || k == step.key)
              && t.tombstones[step.key] == Tombstone(t.meta[step.key.org].current, step.at)
              && (forall k | k in s.tombstones && k != step.key :: t.tombstones[k] == s.tombstones[k])
              && (forall d :: d in t.deletes <==>
                    d in s.deletes || d == Deletion(step.key, t.meta[step.key.org].current))
    ensures step.Restore? ==>
              && Advances(s, step.key.org, t)
              && (forall k :: k in t.tombstones <==> k in s.tombstones && k != step.key)
              && (forall k | k in t.tombstones :: t.tombstones[k] == s.tombstones[k])
              && (forall d :: d in t.deletes <==> d in s.deletes && d.key != step.key)
    ensures step.Write? ==>
              Advances(s, step.org, t) && t.tombstones == s.tombstones && t.deletes == s.deletes
  {
  }

  lemma PurgeCovers(s: Sync, batch: set<Key>, t: Sync, d: Deletion)
    requires Invariant(s) && Next(s, Purge(batch), t) && Covered(s, d)
    ensures Covered(t, d)
  {
    if d.key in batch {
      assert VersionOf(s.tombstones, batch, d.key.org, s.tombstones[d.key].version);
    }
  }

  lemma StepKeepsInvariant(s: Sync, step: Step, t: Sync)
    requires Invariant(s) && Next(s, step, t)
    ensures Invariant(t)
  {
    match step
    case Purge(batch) =>
      forall d | d in t.deletes ensures Covered(t, d) { PurgeCovers(s, batch, t, d); }
      forall o | o in t.meta ensures t.meta[o].minAvailable <= t.meta[o].current {
        if t.meta[o].minAvailable != s.meta[o].minAvailable {
          var k :| k in batch && k in s.tombstones && k.org == o && s.tombstones[k].version == t.meta[o].minAvailable;
        }
      }
    case Delete(k, _) => forall d | d in t.deletes ensures Covered(t, d) {
        if d in s.deletes { assert Covered(s, d); }
      }
    case Restore(_) => forall d | d in t.deletes ensures Covered(t, d) { assert Covered(s, d); }
    case Write(_) => forall d | d in t.deletes ensures Covered(t, d) { assert Covered(s, d); }
  }

  lemma {:induction false} TraceKeepsInvariant(states: seq<Sync>, steps: seq<Step>, i: nat)
    requires Trace(states, steps) && i < |states|
    ensures Invariant(states[i])
  {
    if i > 0 {
      TraceKeepsInvariant(states, steps, i - 1);
      assert Next(states[i - 1], steps[i - 1], states[i]);
      StepKeepsInvariant(states[i - 1], steps[i - 1], states[i]);
    }
  }

  /**
   No missed delete: at every commit point, a client whose cursor is still accepted reads every
   deletion newer than its cursor, whatever has been purged.
   */
  lemma NoMissedDelete(states: seq<Sync>, steps: seq<Step>, i: nat, cursor: nat, d: Deletion)
    requires Trace(states, steps) && i < |states|
    requires d in states[i].deletes && d.version > cursor
    requires CursorUsable(states[i], d.key.org, cursor)
    ensures d.key in DeltaDeletes(states[i], d.key.org, cursor)
    ensures d.key in states[i].tombstones && states[i].tombstones[d.key].version > cursor
  {
    TraceKeepsInvariant(states, steps, i);
    assert Covered(states[i], d);
  }

  /** A cursor is refused exactly below the watermark; what is read are the tombstones newer than it. */
  lemma ReadMeaning(s: Sync, org: string, cursor: nat, k: Key)
    ensures !CursorUsable(s, org, cursor) <==> org in s.meta && cursor < s.meta[org].minAvailable
    ensures k in DeltaDeletes(s, org, cursor) <==>
              k in s.tombstones && k.org == org && cursor < s.tombstones[k].version
  {
  }

  lemma StepKeepsWatermark(s: Sync, step: Step, t: Sync, org: string)
    requires Next(s, step, t) && org in s.meta
    ensures org in t.meta && s.meta[org].minAvailable <= t.meta[org].minAvailable
        && s.meta[org].current <= t.meta[org].current
  {
  }

  /** A watermark never falls, and it covers every tombstone purged earlier in the run. */
  lemma {:induction false} PurgedStaysBelowWatermark(states: seq<Sync>, steps: seq<Step>, i: nat, j: nat, k: Key)
    requires Trace(states, steps) && i < j < |states|
    requires steps[i].Purge? && k in steps[i].batch
    ensures k in states[i].tombstones && k.org in states[j].meta
    ensures states[i].tombstones[k].version <= states[j].meta[k.org].minAvailable
    decreases j
  {
    TraceKeepsInvariant(states, steps, i);
    assert Next(states[i], steps[i], states[i + 1]);
    if j == i + 1 {
      assert VersionOf(states[i].tombstones, steps[i].batch, k.org, states[i].tombstones[k].version);
    } else {
      PurgedStaysBelowWatermark(states, steps, i, j - 1, k);
      assert Next(states[j - 1], steps[j - 1], states[j]);
      StepKeepsWatermark(states[j - 1], steps[j - 1], states[j], k.org);
    }
  }

  // ---- the purge loop -----------------------------------------------------------------------

  class SyncTables {
    var tombstones: map<Key, Tombstone>
    var meta: map<string, Meta>
    ghost var deletes: set<Deletion>

    ghost function Value(): Sync
      reads this
    {
      Sync(tombstones, meta, deletes)
    }

    function Eligible(cutoff: int): set<Key>
      reads this
    {
      set k | k in tombstones && tombstones[k].deletedAt < cutoff
    }

    /** ORDER BY deleted_at LIMIT n FOR UPDATE SKIP LOCKED: the oldest free rows. */
    method SelectOldest(free: set<Key>, limit: nat) returns (batch: set<Key>)
      requires free <= tombstones.Keys
      ensures batch <= free && |batch| <= limit
      ensures |batch| < limit ==> batch == free
      ensures forall a, b | a in batch && b in free - batch :: tombstones[a].deletedAt <= tombstones[b].deletedAt
    {
      batch := {};
      while |batch| < limit && batch != free
        invariant batch <= free && |batch| <= limit
        invariant forall a, b | a in batch && b in free - batch :: tombstones[a].deletedAt <= tombstones[b].deletedAt
        decreases |free - batch|
      {
        var oldest := Oldest(free - batch);
        batch := batch + {oldest};
      }
    }

    method Oldest(rows: set<Key>) returns (k: Key)
      requires rows != {} && rows <= tombstones.Keys
      ensures k in rows && forall x | x in rows :: tombstones[k].deletedAt <= tombstones[x].deletedAt
    {
      k :| k in rows;
      var rest := rows - {k};
      while rest != {}
        invariant k in rows && rest <= rows
        invariant forall x | x in rows - rest :: tombstones[k].deletedAt <= tombstones[x].deletedAt
        decreases |rest|
      {
        var x :| x in rest;
        if tombstones[x].deletedAt < tombstones[k].deletedAt {
          k := x;
        }
        rest := rest - {x};
      }
    }

    /** MAX(delete_version) of one organization's deleted rows. */
    method HighestOf(rows: map<Key, Tombstone>, org: string) returns (v: nat)
      requires exists k :: k in rows && k.org == org
      ensures VersionOf(rows, rows.Keys, org, v)
      ensures forall x: nat | VersionOf(rows, rows.Keys, org, x) :: x <= v
    {
      var mine := set k | k in rows && k.org == org;
      ghost var some :| some in rows && some.org == org;
      assert some in mine;
      var k :| k in mine;
      v := rows[k].version;
      var rest := mine - {k};
      while rest != {}
        invariant rest <= mine
        invariant exists y :: y in mine && rows[y].version == v
        invariant forall y | y in mine - rest :: rows[y].version <= v
        decreases |rest|
      {
        var x :| x in rest;
        if rows[x].version > v {
          v := rows[x].version;
        }
        rest := rest - {x};
      }
    }

    /** One committed batch: delete the rows and raise the watermark of every organization among them. */
    method PurgeBatch(batch: set<Key>)
      requires batch <= tombstones.Keys
      modifies this`tombstones, this`meta
      ensures Next(old(Value()), Purge(batch), Value())
    {
      var removed := map k | k in batch :: tombstones[k];
      ghost var was := tombstones;
      tombstones := tombstones - batch;
      ghost var before := meta;
      var orgs := set k | k in batch :: k.org;
      var rest := orgs;
      while rest != {}
        invariant rest <= orgs && meta.Keys == before.Keys
        invariant tombstones == was - batch
        invariant forall o | o in before && o !in orgs - rest :: meta[o] == before[o]
        invariant forall o | o in before && o in orgs - rest :: RaisedRow(removed, o, before[o], meta[o])
        decreases |rest|
      {
        var o :| o in rest;
        var k :| k in batch && k.org == o;
        assert k in removed;
        var highest := HighestOf(removed, o);
        if o in meta {
          meta := meta[o := meta[o].(minAvailable := if meta[o].minAvailable >= highest then meta[o].minAvailable
              else highest)];
        }
        rest := rest - {o};
      }
      RowsRaiseAll(was, batch, removed, before, meta, orgs);
    }

    /**
     `_purge_tombstone_batches`: until a batch comes back empty. Locked rows are skipped; every other row older than
     the cutoff is gone in the end.
     */
    method PurgeTombstones(cutoff: int, batchSize: nat, locked: set<Key>)
      requires batchSize >= 1 && Invariant(Value())
      modifies this`tombstones, this`meta
      ensures Invariant(Value()) && PurgedFrom(old(Value()), Value(), cutoff, locked)
      ensures forall k | k in tombstones && tombstones[k].deletedAt < cutoff :: k in locked
    {
      assert PurgedFrom(Value(), Value(), cutoff, locked) by {
        forall o | o in meta ensures WatermarkOfPurged(Value(), o, Value()) {}
      }
      while true
        invariant Invariant(Value()) && PurgedFrom(old(Value()), Value(), cutoff, locked)
        decreases |tombstones|
      {
        var free := Eligible(cutoff) - locked;
        var batch := SelectOldest(free, batchSize);
        if batch == {} {
          assert free == {};
          assert forall k | k in tombstones && tombstones[k].deletedAt < cutoff :: k in free || k in locked;
          return;
        }
        ghost var before := Value();
        PurgeBatch(batch);
        StepKeepsInvariant(before, Purge(batch), Value());
        PurgedFurther(old(Value()), before, batch, Value(), cutoff, locked);
        assert |tombstones| < |before.tombstones| by {
          var k :| k in batch;
          SmallerSubset(tombstones.Keys, before.tombstones.Keys, k);
        }
      }
    }
  }

  /**
   Only rows older than the cutoff and not locked are gone, each below the watermark; all others are as they were.
   */
  ghost predicate PurgedFrom(s: Sync, t: Sync, cutoff: int, locked: set<Key>) {
    && (forall k | k in t.tombstones :: k in s.tombstones && t.tombstones[k] == s.tombstones[k])
    && (forall k | k in s.tombstones && (s.tombstones[k].deletedAt >= cutoff || k in locked) :: k in t.tombstones)
    && (forall k | k in s.tombstones && k !in t.tombstones ::
          k.org in t.meta && s.tombstones[k].version <= t.meta[k.org].minAvailable)
    && t.meta.Keys == s.meta.Keys && (forall o | o in s.meta :: WatermarkOfPurged(s, o, t))
    && t.deletes == s.deletes
  }

  lemma PurgedFurther(s: Sync, u: Sync, batch: set<Key>, t: Sync, cutoff: int, locked: set<Key>)
    requires Invariant(u) && PurgedFrom(s, u, cutoff, locked) && Next(u, Purge(batch), t)
    requires forall k | k in batch :: u.tombstones[k].deletedAt < cutoff && k !in locked
    ensures PurgedFrom(s, t, cutoff, locked)
  {
    forall k | k in batch ensures u.tombstones[k].version <= t.meta[k.org].minAvailable {
      assert VersionOf(u.tombstones, batch, k.org, u.tombstones[k].version);
    }
    forall o | o in s.meta ensures WatermarkOfPurged(s, o, t) {
      WatermarkFurther(s, u, batch, t, o);
    }
  }

  lemma WatermarkFurther(s: Sync, u: Sync, batch: set<Key>, t: Sync, o: string)
    requires Next(u, Purge(batch), t) && WatermarkOfPurged(s, o, u)
    requires forall k | k in u.tombstones :: k in s.tombstones && u.tombstones[k] == s.tombstones[k]
    ensures WatermarkOfPurged(s, o, t)
  {
    if t.meta[o].minAvailable != u.meta[o].minAvailable {
      assert VersionOf(u.tombstones, batch, o, t.meta[o].minAvailable);
    }
  }

  /** A watermark only rises, and then to the version of a tombstone that is gone. */
  ghost predicate WatermarkOfPurged(s: Sync, o: string, t: Sync) {
    && o in s.meta && o in t.meta && t.meta[o].current == s.meta[o].current
    && s.meta[o].minAvailable <= t.meta[o].minAvailable
    && (t.meta[o].minAvailable == s.meta[o].minAvailable
        || exists k | k in s.tombstones && k !in t.tombstones ::
             k.org == o && s.tombstones[k].version == t.meta[o].minAvailable)
  }

  /** The watermark row of one organization after the deleted rows. */
  ghost predicate RaisedRow(removed: map<Key, Tombstone>, o: string, before: Meta, after: Meta) {
    && after.current == before.current && after.minAvailable >= before.minAvailable
    && (forall v: nat | VersionOf(removed, removed.Keys, o, v) :: v <= after.minAvailable)
    && (after.minAvailable == before.minAvailable || VersionOf(removed, removed.Keys, o, after.minAvailable))
  }

  lemma RowsRaiseAll(was: map<Key, Tombstone>, batch: set<Key>, removed: map<Key, Tombstone>,
                     before: map<string, Meta>, after: map<string, Meta>, orgs: set<string>)
    requires batch <= was.Keys && removed == (map k | k in batch :: was[k]) && orgs == (set k | k in batch :: k.org)
    requires after.Keys == before.Keys
    requires forall o | o in before && o !in orgs :: after[o] == before[o]
    requires forall o | o in before && o in orgs :: RaisedRow(removed, o, before[o], after[o])
    ensures Raised(was, batch, before, after)
  {
    forall o, v: nat ensures VersionOf(was, batch, o, v) <==> VersionOf(removed, removed.Keys, o, v) {
      if k :| k in batch && k in was && k.org == o && was[k].version == v { assert k in removed; }
      if k :| k in removed && k.org == o && removed[k].version == v { assert k in batch; }
    }
  }
}
