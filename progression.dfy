/**
 * The stage-progression rule, stated on values: the stage catalog, the
 * barcode state table and the event log as maps and sequences, one barcode's
 * classification and state change, and their fold over a batch.
 */
module Progression {
  import opened Wrappers

  /** Timestamps are stored as ISO-8601 text; the engine only copies them. */
  type Timestamp = string

  /** A catalog entry: a stage name and its position in the pipeline. */
  datatype Stage = Stage(name: string, position: int)

  /** A row of the barcode state table: current stage, creation and last-update time. */
  datatype Row = Row(stage: string, created: Timestamp, updated: Timestamp)

  /** A row of the event log: one reported sighting. */
  datatype Event = Event(barcode: string, stage: string, eventTime: Timestamp)

  /** The outcome for one barcode: first sighting, forward move, or already at or past the stage. */
  datatype Classification = New | Old | Same

  /** The per-outcome counters of one batch. */
  datatype Counts = Counts(newCount: nat, oldCount: nat, sameCount: nat)

  /** The stage catalog: stage name to position. */
  type Catalog = map<string, int>

  /** The barcode state table: barcode to its row. */
  type Rows = map<string, Row>

  /** No two stages share a position. */
  ghost predicate UniquePositions(catalog: Catalog)
  {
    forall s, t :: s in catalog && t in catalog && s != t ==> catalog[s] != catalog[t]
  }

  /** Every stored row names a stage of the catalog. */
  ghost predicate RowsInCatalog(catalog: Catalog, rows: Rows)
  {
    forall b :: b in rows ==> rows[b].stage in catalog
  }

  /** `target` is the catalog's entry for its name. */
  ghost predicate Resolved(catalog: Catalog, target: Stage)
  {
    target.name in catalog && catalog[target.name] == target.position
  }

  /**
   * The position of a barcode's current stage, found by joining its row to
   * the catalog; `None` when the barcode has no row (or, outside the
   * catalog invariant, when its stage is missing from the catalog).
   */
  function StoredPosition(catalog: Catalog, rows: Rows, b: string): (r: Option<int>)
    ensures r.Some? ==> b in rows
  {
    if b in rows && rows[b].stage in catalog then Some(catalog[rows[b].stage]) else None
  }

  /** Under the catalog invariant, a barcode has no position exactly when it has no row. */
  lemma StoredPositionOfRow(catalog: Catalog, rows: Rows, b: string)
    requires RowsInCatalog(catalog, rows)
    ensures StoredPosition(catalog, rows, b).None? <==> b !in rows
    ensures b in rows ==> StoredPosition(catalog, rows, b) == Some(catalog[rows[b].stage])
  {
  }

  /** `b` has a stored position and it is at least `position`. */
  ghost predicate AtOrPast(catalog: Catalog, rows: Rows, b: string, position: int)
  {
    StoredPosition(catalog, rows, b).Some? && StoredPosition(catalog, rows, b).value >= position
  }

  /** The three-way classification of a barcode against the target position. */
  function Classify(existing: Option<int>, target: int): (c: Classification)
    ensures c == New <==> existing.None?
    ensures c == Old <==> existing.Some? && existing.value < target
    ensures c == Same <==> existing.Some? && existing.value >= target
  {
    match existing
    case None => New
    case Some(p) => if p < target then Old else Same
  }

  /**
   * The state change for one classified barcode: insert a row at the target
   * (created and updated at `now`), move an existing row to the target
   * (update matching no row changes nothing), or leave the table alone.
   */
  function Apply(rows: Rows, b: string, target: Stage, c: Classification, now: Timestamp): (r: Rows)
    ensures r.Keys == rows.Keys + (if c == New then {b} else {})
    ensures forall x :: x in rows && x != b ==> r[x] == rows[x]
    ensures b in r ==> r[b].stage == target.name || c == Same
  {
    match c
    case New => rows[b := Row(target.name, now, now)]
    case Old => if b in rows then rows[b := rows[b].(stage := target.name, updated := now)] else rows
    case Same => rows
  }

  /** The classification of `b` against the table `rows`. */
  function ClassifyIn(catalog: Catalog, rows: Rows, b: string, target: Stage): Classification
  {
    Classify(StoredPosition(catalog, rows, b), target.position)
  }

  /**
   * The state table after processing the batch `bs` in order; the i-th
   * barcode's state change is stamped `clock(i)`.
   */
  function After(catalog: Catalog, rows: Rows, bs: seq<string>, target: Stage, clock: nat -> Timestamp): Rows
  {
    if bs == [] then rows
    else
      var n := |bs| - 1;
      var prev := After(catalog, rows, bs[..n], target, clock);
      Apply(prev, bs[n], target, ClassifyIn(catalog, prev, bs[n], target), clock(n))
  }

  /** The classification of each barcode of the batch, in order. */
  function Outcomes(catalog: Catalog, rows: Rows, bs: seq<string>, target: Stage, clock: nat -> Timestamp): (cs: seq<Classification>)
    ensures |cs| == |bs|
  {
    if bs == [] then []
    else
      var n := |bs| - 1;
      Outcomes(catalog, rows, bs[..n], target, clock)
        + [ClassifyIn(catalog, After(catalog, rows, bs[..n], target, clock), bs[n], target)]
  }

  /** Adds one to the counter of outcome `c`, leaving the other two alone. */
  function Bump(counts: Counts, c: Classification): (r: Counts)
    ensures r.newCount + r.oldCount + r.sameCount == counts.newCount + counts.oldCount + counts.sameCount + 1
    ensures c != New ==> r.newCount == counts.newCount
    ensures c != Old ==> r.oldCount == counts.oldCount
    ensures c != Same ==> r.sameCount == counts.sameCount
  {
    match c
    case New => counts.(newCount := counts.newCount + 1)
    case Old => counts.(oldCount := counts.oldCount + 1)
    case Same => counts.(sameCount := counts.sameCount + 1)
  }

  /** The counters after bumping once per outcome, starting from zero. */
  function Tally(cs: seq<Classification>): Counts
  {
    if cs == [] then Counts(0, 0, 0)
    else
      var n := |cs| - 1;
      Bump(Tally(cs[..n]), cs[n])
  }

  /**
   * Each counter is the number of outcomes of its kind, and together the
   * counters count every outcome.
   */
  lemma {:induction false} TallyCounts(cs: seq<Classification>)
    ensures Tally(cs).newCount == multiset(cs)[New]
    ensures Tally(cs).oldCount == multiset(cs)[Old]
    ensures Tally(cs).sameCount == multiset(cs)[Same]
    ensures Tally(cs).newCount + Tally(cs).oldCount + Tally(cs).sameCount == |cs|
  {
    if cs != [] {
      var n := |cs| - 1;
      TallyCounts(cs[..n]);
      assert cs == cs[..n] + [cs[n]];
    }
  }

  /** The events a batch appends, in batch order. */
  function Sightings(bs: seq<string>, stage: string, eventTime: Timestamp): (es: seq<Event>)
    ensures |es| == |bs|
  {
    if bs == [] then []
    else
      var n := |bs| - 1;
      Sightings(bs[..n], stage, eventTime) + [Event(bs[n], stage, eventTime)]
  }

  /**
   * A batch appends exactly one event per barcode, whatever its outcome,
   * carrying the reported stage name and the caller's event time.
   */
  lemma {:induction false} SightingsAt(bs: seq<string>, stage: string, eventTime: Timestamp)
    ensures forall k :: 0 <= k < |bs| ==> Sightings(bs, stage, eventTime)[k] == Event(bs[k], stage, eventTime)
  {
    if bs != [] {
      var n := |bs| - 1;
      SightingsAt(bs[..n], stage, eventTime);
    }
  }

  /** A step towards a catalog stage keeps every row inside the catalog. */
  lemma ApplyKeepsCatalog(catalog: Catalog, rows: Rows, b: string, target: Stage, c: Classification, now: Timestamp)
    requires RowsInCatalog(catalog, rows) && target.name in catalog
    ensures RowsInCatalog(catalog, Apply(rows, b, target, c, now))
  {
  }

  /** Extending a batch prefix by one barcode extends each fold by one step. */
  lemma FoldSnoc(catalog: Catalog, rows: Rows, bs: seq<string>, i: nat, target: Stage,
                 clock: nat -> Timestamp, eventTime: Timestamp)
    requires i < |bs|
    ensures var prev := After(catalog, rows, bs[..i], target, clock);
      var c := ClassifyIn(catalog, prev, bs[i], target);
      && After(catalog, rows, bs[..i + 1], target, clock) == Apply(prev, bs[i], target, c, clock(i))
      && Outcomes(catalog, rows, bs[..i + 1], target, clock) == Outcomes(catalog, rows, bs[..i], target, clock) + [c]
      && Tally(Outcomes(catalog, rows, bs[..i + 1], target, clock)) == Bump(Tally(Outcomes(catalog, rows, bs[..i], target, clock)), c)
      && Sightings(bs[..i + 1], target.name, eventTime) == Sightings(bs[..i], target.name, eventTime) + [Event(bs[i], target.name, eventTime)]
  {
    assert bs[..i + 1][..i] == bs[..i];
    var cs := Outcomes(catalog, rows, bs[..i + 1], target, clock);
    assert cs[..i] == Outcomes(catalog, rows, bs[..i], target, clock);
  }

  /**
   * One barcode's step: what each outcome does to the table. A new barcode
   * gets a row at the target created and updated at `now`; a forward move
   * changes only the stage and the update time; a re-report writes nothing;
   * no other barcode's row changes; afterwards the barcode is at or past the
   * target, and never lower than before.
   */
  lemma StepEffects(catalog: Catalog, rows: Rows, b: string, target: Stage, now: Timestamp)
    requires RowsInCatalog(catalog, rows) && Resolved(catalog, target)
    ensures var c := ClassifyIn(catalog, rows, b, target);
      var rows' := Apply(rows, b, target, c, now);
      && RowsInCatalog(catalog, rows')
      && rows'.Keys == rows.Keys + {b}
      && (forall x :: x in rows && x != b ==> rows'[x] == rows[x])
      && (c == New ==> b !in rows && rows'[b] == Row(target.name, now, now))
      && (c == Old ==> b in rows && rows'[b] == Row(target.name, rows[b].created, now))
      && (c == Same ==> rows' == rows)
      && AtOrPast(catalog, rows', b, target.position)
      && (b in rows ==> AtOrPast(catalog, rows', b, catalog[rows[b].stage]))
  {
  }

  /**
   * A step that keeps every row other than `b`'s keeps every other barcode
   * at or past the position it had reached.
   */
  lemma FrameKeepsAtOrPast(catalog: Catalog, prev: Rows, cur: Rows, b: string)
    requires forall x :: x in prev && x != b ==> x in cur && cur[x] == prev[x]
    ensures forall x, p :: x != b && AtOrPast(catalog, prev, x, p) ==> AtOrPast(catalog, cur, x, p)
  {
  }

  /**
   * Classifying and applying a step leaves the barcode in the table: a
   * barcode that is not yet there is classified as new.
   */
  lemma StepAddsBarcode(catalog: Catalog, rows: Rows, b: string, target: Stage, c: Classification)
    requires RowsInCatalog(catalog, rows)
    requires c == ClassifyIn(catalog, rows, b, target)
    ensures rows.Keys + (if c == New then {b} else {}) == rows.Keys + {b}
  {
    StoredPositionOfRow(catalog, rows, b);
  }

  /** A whole batch keeps the catalog invariant. */
  lemma {:induction false} AfterCatalog(catalog: Catalog, rows: Rows, bs: seq<string>, target: Stage, clock: nat -> Timestamp)
    requires RowsInCatalog(catalog, rows) && Resolved(catalog, target)
    ensures RowsInCatalog(catalog, After(catalog, rows, bs, target, clock))
  {
    if bs != [] {
      var n := |bs| - 1;
      AfterCatalog(catalog, rows, bs[..n], target, clock);
      var prev := After(catalog, rows, bs[..n], target, clock);
      ApplyKeepsCatalog(catalog, prev, bs[n], target, ClassifyIn(catalog, prev, bs[n], target), clock(n));
    }
  }

  /** A whole batch adds exactly its own barcodes to the table. */
  lemma {:induction false} AfterKeys(catalog: Catalog, rows: Rows, bs: seq<string>, target: Stage, clock: nat -> Timestamp)
    requires RowsInCatalog(catalog, rows) && Resolved(catalog, target)
    ensures forall x :: x in After(catalog, rows, bs, target, clock) <==> x in rows || x in bs
  {
    if bs != [] {
      var n := |bs| - 1;
      var prefix := bs[..n];
      AfterKeys(catalog, rows, prefix, target, clock);
      AfterCatalog(catalog, rows, prefix, target, clock);
      var prev := After(catalog, rows, prefix, target, clock);
      StepAddsBarcode(catalog, prev, bs[n], target, ClassifyIn(catalog, prev, bs[n], target));
      forall x ensures x in bs <==> x in prefix || x == bs[n] {
        assert bs == prefix + [bs[n]];
      }
    }
  }

  /** Barcodes outside a batch keep their rows. */
  lemma {:induction false} AfterUnchanged(catalog: Catalog, rows: Rows, bs: seq<string>, target: Stage, clock: nat -> Timestamp)
    ensures forall x :: x in rows && x !in bs ==>
      x in After(catalog, rows, bs, target, clock) && After(catalog, rows, bs, target, clock)[x] == rows[x]
  {
    if bs != [] {
      var n := |bs| - 1;
      var prefix := bs[..n];
      AfterUnchanged(catalog, rows, prefix, target, clock);
      forall x | x in rows && x !in bs
        ensures x in After(catalog, rows, bs, target, clock) && After(catalog, rows, bs, target, clock)[x] == rows[x]
      {
        assert x !in prefix && x != bs[n];
      }
    }
  }

  /**
   * The reach of a whole batch: no stored position decreases, and every
   * barcode of the batch ends at or past the target.
   */
  lemma {:induction false} AfterReach(catalog: Catalog, rows: Rows, bs: seq<string>, target: Stage, clock: nat -> Timestamp)
    requires RowsInCatalog(catalog, rows) && Resolved(catalog, target)
    ensures forall x :: x in rows ==> AtOrPast(catalog, After(catalog, rows, bs, target, clock), x, catalog[rows[x].stage])
    ensures forall k :: 0 <= k < |bs| ==> AtOrPast(catalog, After(catalog, rows, bs, target, clock), bs[k], target.position)
  {
    if bs != [] {
      var n := |bs| - 1;
      var prefix := bs[..n];
      AfterReach(catalog, rows, prefix, target, clock);
      AfterCatalog(catalog, rows, prefix, target, clock);
      var prev := After(catalog, rows, prefix, target, clock);
      var cur := After(catalog, rows, bs, target, clock);
      StepEffects(catalog, prev, bs[n], target, clock(n));
      assert cur == Apply(prev, bs[n], target, ClassifyIn(catalog, prev, bs[n], target), clock(n));
      FrameKeepsAtOrPast(catalog, prev, cur, bs[n]);
      forall x | x in rows
        ensures AtOrPast(catalog, cur, x, catalog[rows[x].stage])
      {
        assert AtOrPast(catalog, prev, x, catalog[rows[x].stage]);
      }
      forall k | 0 <= k < |bs|
        ensures AtOrPast(catalog, cur, bs[k], target.position)
      {
        if k < n {
          assert prefix[k] == bs[k];
        }
      }
    }
  }

  /**
   * What a whole batch does to the table: the catalog invariant is kept,
   * exactly the batch's barcodes are added, barcodes outside the batch keep
   * their rows, no stored position decreases, and every barcode of the
   * batch ends at or past the target.
   */
  lemma AfterEffects(catalog: Catalog, rows: Rows, bs: seq<string>, target: Stage, clock: nat -> Timestamp)
    requires RowsInCatalog(catalog, rows) && Resolved(catalog, target)
    ensures RowsInCatalog(catalog, After(catalog, rows, bs, target, clock))
    ensures After(catalog, rows, bs, target, clock).Keys == rows.Keys + set b | b in bs
    ensures forall x :: x in rows && x !in bs ==> After(catalog, rows, bs, target, clock)[x] == rows[x]
    ensures forall x :: x in rows ==> AtOrPast(catalog, After(catalog, rows, bs, target, clock), x, catalog[rows[x].stage])
    ensures forall k :: 0 <= k < |bs| ==> AtOrPast(catalog, After(catalog, rows, bs, target, clock), bs[k], target.position)
  {
    AfterCatalog(catalog, rows, bs, target, clock);
    AfterKeys(catalog, rows, bs, target, clock);
    assert After(catalog, rows, bs, target, clock).Keys == rows.Keys + set b | b in bs;
    AfterUnchanged(catalog, rows, bs, target, clock);
    AfterReach(catalog, rows, bs, target, clock);
  }

  /** The k-th outcome is the classification against the table left by the first k barcodes. */
  lemma {:induction false} OutcomeAt(catalog: Catalog, rows: Rows, bs: seq<string>, target: Stage, clock: nat -> Timestamp, k: nat)
    requires k < |bs|
    ensures Outcomes(catalog, rows, bs, target, clock)[k]
         == ClassifyIn(catalog, After(catalog, rows, bs[..k], target, clock), bs[k], target)
  {
    var n := |bs| - 1;
    if k < n {
      OutcomeAt(catalog, rows, bs[..n], target, clock, k);
      assert bs[..n][..k] == bs[..k];
    } else {
      assert bs[..n] == bs[..k];
    }
  }

  /**
   * Each barcode's first occurrence in a batch is classified against the
   * table as it was before the batch; every later occurrence is `Same`.
   */
  lemma OutcomeOfOccurrence(catalog: Catalog, rows: Rows, bs: seq<string>, target: Stage, clock: nat -> Timestamp, k: nat)
    requires RowsInCatalog(catalog, rows) && Resolved(catalog, target)
    requires k < |bs|
    ensures bs[k] !in bs[..k] ==> Outcomes(catalog, rows, bs, target, clock)[k] == ClassifyIn(catalog, rows, bs[k], target)
    ensures bs[k] in bs[..k] ==> Outcomes(catalog, rows, bs, target, clock)[k] == Same
  {
    OutcomeAt(catalog, rows, bs, target, clock, k);
    AfterEffects(catalog, rows, bs[..k], target, clock);
    var prev := After(catalog, rows, bs[..k], target, clock);
    if bs[k] in bs[..k] {
      var i :| 0 <= i < k && bs[..k][i] == bs[k];
      assert AtOrPast(catalog, prev, bs[..k][i], target.position);
    } else {
      assert bs[k] !in (set b | b in bs[..k]);
      assert StoredPosition(catalog, prev, bs[k]) == StoredPosition(catalog, rows, bs[k]);
    }
  }

  /**
   * A batch whose barcodes are all already at or past the target classifies
   * every one of them `Same` and leaves the table as it was.
   */
  lemma {:induction false} SettledBatchIsNoop(catalog: Catalog, rows: Rows, bs: seq<string>, target: Stage, clock: nat -> Timestamp)
    requires forall k :: 0 <= k < |bs| ==> AtOrPast(catalog, rows, bs[k], target.position)
    ensures After(catalog, rows, bs, target, clock) == rows
    ensures forall k :: 0 <= k < |bs| ==> Outcomes(catalog, rows, bs, target, clock)[k] == Same
  {
    if bs != [] {
      var n := |bs| - 1;
      forall k | 0 <= k < n ensures AtOrPast(catalog, rows, bs[..n][k], target.position) {
        assert bs[..n][k] == bs[k];
      }
      SettledBatchIsNoop(catalog, rows, bs[..n], target, clock);
      assert AtOrPast(catalog, rows, bs[n], target.position);
    }
  }

  /**
   * Re-running a batch at the same stage, whatever the clock, classifies
   * every barcode `Same` (so none is `New`) and leaves the table unchanged.
   */
  lemma RerunIsNoop(catalog: Catalog, rows: Rows, bs: seq<string>, target: Stage, clock: nat -> Timestamp, clock': nat -> Timestamp)
    requires RowsInCatalog(catalog, rows) && Resolved(catalog, target)
    ensures var once := After(catalog, rows, bs, target, clock);
      && After(catalog, once, bs, target, clock') == once
      && forall k :: 0 <= k < |bs| ==> Outcomes(catalog, once, bs, target, clock')[k] == Same
  {
    AfterEffects(catalog, rows, bs, target, clock);
    SettledBatchIsNoop(catalog, After(catalog, rows, bs, target, clock), bs, target, clock');
  }
}
