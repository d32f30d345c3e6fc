/**
 * The ingest engine over in-memory stores: a `Tracker` holds the stage
 * catalog, the barcode state table and the event log; its methods are the
 * database helpers and the `/ingest` handler body.
 */
module Engine {
  import opened Wrappers
  import opened Validation
  import opened Progression

  /** The message returned with the counts of a finished batch. */
  const FinishedMessage := "Finished processing barcodes."

  /** One failed field of a request body. */
  datatype FieldError = FieldError(field: string, message: string)

  /** Why a request was rejected: an unknown stage, or a malformed body. */
  datatype Error = NotFound(detail: string) | Invalid(problems: seq<FieldError>)

  /** The body of an ingest request. */
  datatype Payload = Payload(stageName: string, barcodes: seq<string>, eventTime: Timestamp)

  /** The reply to a finished batch. */
  datatype Response = Response(stage: string, position: int, counts: Counts, message: string)

  /** The detail of the not-found error for an unknown stage name. */
  function StageNotFound(name: string): string
  {
    "Stage '" + name + "' not found"
  }

  /** The failures of the `stage_name` field: it must not be empty. */
  function StageNameProblems(name: string): (r: seq<FieldError>)
    ensures r == [] <==> name != []
    ensures forall k :: 0 <= k < |r| ==> r[k].field == "stage_name"
  {
    if |name| < 1 then [FieldError("stage_name", "String should have at least 1 character")] else []
  }

  /**
   * The failures of the `barcodes` field: the list must not be empty, and
   * then the cleaning validator must leave something.
   */
  function BarcodeProblems(v: seq<string>): (r: seq<FieldError>)
    ensures r == [] <==> exists j :: 0 <= j < |v| && !Blank(v[j])
    ensures forall k :: 0 <= k < |r| ==> r[k].field == "barcodes"
  {
    if |v| < 1 then [FieldError("barcodes", "List should have at least 1 item after validation, not 0")]
    else match EnsureBarcodesNonempty(v)
      case Failure(message) => [FieldError("barcodes", "Value error, " + message)]
      case Success(_) => []
  }

  /**
   * Request-body validation: every field is checked and all failures are
   * reported together; an accepted body carries the cleaned barcode list,
   * which is never empty and holds only stripped, non-blank entries.
   */
  function ValidatePayload(p: Payload): (r: Result<Payload, seq<FieldError>>)
    ensures r.Success? <==> p.stageName != [] && exists j :: 0 <= j < |p.barcodes| && !Blank(p.barcodes[j])
    ensures r.Success? ==> r.value == p.(barcodes := Clean(p.barcodes))
    ensures r.Success? ==> r.value.barcodes != [] && forall k :: 0 <= k < |r.value.barcodes| ==> IsStripped(r.value.barcodes[k])
    ensures r.Failure? ==> r.error != []
  {
    var problems := StageNameProblems(p.stageName) + BarcodeProblems(p.barcodes);
    if problems == [] then Success(p.(barcodes := Clean(p.barcodes))) else Failure(problems)
  }

  /**
   * What an ingest of `batch` at `stageName` does, from the stores `rows0`
   * and `events0` to `rows1` and `events1` with reply `r`: an unknown stage
   * is reported before anything is written; otherwise the table is the
   * batch's fold, the log grows by one event per barcode, and the reply
   * carries the stage, its position and the per-outcome counts.
   */
  ghost predicate IngestOutcome(catalog: Catalog, rows0: Rows, events0: seq<Event>,
                                stageName: string, batch: seq<string>, eventTime: Timestamp, clock: nat -> Timestamp,
                                rows1: Rows, events1: seq<Event>, r: Result<Response, Error>)
  {
    if stageName !in catalog then
      r == Failure(NotFound(StageNotFound(stageName))) && rows1 == rows0 && events1 == events0
    else
      var target := Stage(stageName, catalog[stageName]);
      && rows1 == After(catalog, rows0, batch, target, clock)
      && events1 == events0 + Sightings(batch, stageName, eventTime)
      && r == Success(Response(stageName, catalog[stageName], Tally(Outcomes(catalog, rows0, batch, target, clock)), FinishedMessage))
  }

  /**
   * What one ingest guarantees: it succeeds exactly when the stage is in
   * the catalog; the log only grows, by one event per barcode carrying the
   * reported stage and event time; no stored position decreases; every
   * barcode of the batch ends at or past the target; and the counters sum
   * to the batch size.
   */
  lemma IngestGuarantees(catalog: Catalog, rows0: Rows, events0: seq<Event>,
                         stageName: string, batch: seq<string>, eventTime: Timestamp, clock: nat -> Timestamp,
                         rows1: Rows, events1: seq<Event>, r: Result<Response, Error>)
    requires RowsInCatalog(catalog, rows0)
    requires IngestOutcome(catalog, rows0, events0, stageName, batch, eventTime, clock, rows1, events1, r)
    ensures r.Success? <==> stageName in catalog
    ensures RowsInCatalog(catalog, rows1)
    ensures |events0| <= |events1| && events1[..|events0|] == events0
    ensures r.Success? ==> |events1| == |events0| + |batch|
    ensures r.Success? ==> forall k :: 0 <= k < |batch| ==> events1[|events0| + k] == Event(batch[k], stageName, eventTime)
    ensures forall x :: x in rows0 ==> AtOrPast(catalog, rows1, x, catalog[rows0[x].stage])
    ensures r.Success? ==> forall k :: 0 <= k < |batch| ==> AtOrPast(catalog, rows1, batch[k], r.value.position)
    ensures r.Success? ==> r.value.counts.newCount + r.value.counts.oldCount + r.value.counts.sameCount == |batch|
  {
    if stageName in catalog {
      var target := Stage(stageName, catalog[stageName]);
      AfterEffects(catalog, rows0, batch, target, clock);
      SightingsAt(batch, stageName, eventTime);
      TallyCounts(Outcomes(catalog, rows0, batch, target, clock));
      assert events1[..|events0|] == events0;
    } else {
      forall x | x in rows0 ensures AtOrPast(catalog, rows1, x, catalog[rows0[x].stage]) { }
    }
  }

  /**
   * Submitting the same batch at the same stage twice: the second run counts
   * every barcode `same` (none `new`) and leaves the state table unchanged,
   * though it still logs one event per barcode.
   */
  lemma IngestTwice(catalog: Catalog, rows0: Rows, events0: seq<Event>,
                    stageName: string, batch: seq<string>, t1: Timestamp, t2: Timestamp,
                    clock1: nat -> Timestamp, clock2: nat -> Timestamp,
                    rows1: Rows, events1: seq<Event>, r1: Result<Response, Error>,
                    rows2: Rows, events2: seq<Event>, r2: Result<Response, Error>)
    requires RowsInCatalog(catalog, rows0)
    requires IngestOutcome(catalog, rows0, events0, stageName, batch, t1, clock1, rows1, events1, r1)
    requires IngestOutcome(catalog, rows1, events1, stageName, batch, t2, clock2, rows2, events2, r2)
    requires stageName in catalog
    ensures rows2 == rows1
    ensures r2.Success? && r2.value.counts == Counts(0, 0, |batch|)
    ensures |events2| == |events1| + |batch|
  {
    var target := Stage(stageName, catalog[stageName]);
    RerunIsNoop(catalog, rows0, batch, target, clock1, clock2);
    var cs := Outcomes(catalog, rows1, batch, target, clock2);
    TallyCounts(cs);
    assert multiset(cs)[New] == 0 && multiset(cs)[Old] == 0 by {
      assert New !in cs && Old !in cs;
    }
  }

  /** The three stores the engine reads and writes. */
  class Tracker {
    /** The stage catalog; the engine never writes it. */
    const catalog: Catalog
    /** The barcode state table. */
    var rows: Rows
    /** The event log. */
    var events: seq<Event>

    /** Stage positions are unique and every row names a catalog stage. */
    ghost predicate Valid()
      reads this
    {
      UniquePositions(catalog) && RowsInCatalog(catalog, rows)
    }

    constructor (catalog: Catalog, rows: Rows, events: seq<Event>)
      requires UniquePositions(catalog) && RowsInCatalog(catalog, rows)
      ensures Valid()
      ensures this.catalog == catalog && this.rows == rows && this.events == events
    {
      this.catalog := catalog;
      this.rows := rows;
      this.events := events;
    }

    /** Looks up a stage by name; an unknown name is a not-found error. */
    function GetStage(name: string): (r: Result<Stage, Error>)
      ensures r.Success? <==> name in catalog
      ensures r.Success? ==> r.value.name == name && Resolved(catalog, r.value)
      ensures r.Failure? ==> r.error == NotFound(StageNotFound(name))
    {
      if name in catalog then Success(Stage(name, catalog[name])) else Failure(NotFound(StageNotFound(name)))
    }

    /** Inserts the row of a barcode seen for the first time. */
    method AddNewBarcode(b: string, stage: Stage, now: Timestamp)
      requires Valid() && Resolved(catalog, stage)
      requires b !in rows
      modifies this
      ensures Valid()
      ensures rows == old(rows)[b := Row(stage.name, now, now)]
      ensures events == old(events)
    {
      rows := rows[b := Row(stage.name, now, now)];
    }

    /** Moves a barcode's row to `stage`; a barcode without a row is left alone. */
    method AdvanceBarcode(b: string, stage: Stage, now: Timestamp)
      requires Valid() && Resolved(catalog, stage)
      modifies this
      ensures Valid()
      ensures b in old(rows) ==> rows == old(rows)[b := Row(stage.name, old(rows)[b].created, now)]
      ensures b !in old(rows) ==> rows == old(rows)
      ensures events == old(events)
    {
      if b in rows {
        rows := rows[b := rows[b].(stage := stage.name, updated := now)];
      }
    }

    /** Appends one sighting to the event log. */
    method AddEvent(b: string, stage: Stage, eventTime: Timestamp)
      requires Valid()
      modifies this
      ensures Valid()
      ensures events == old(events) + [Event(b, stage.name, eventTime)]
      ensures rows == old(rows)
    {
      events := events + [Event(b, stage.name, eventTime)];
    }

    /**
     * One pass of the handler's loop: look up and classify the barcode,
     * insert or advance its row or leave it, and log the sighting.
     */
    method ProcessBarcode(b: string, stage: Stage, now: Timestamp, eventTime: Timestamp)
      returns (cls: Classification)
      requires Valid() && Resolved(catalog, stage)
      modifies this
      ensures Valid()
      ensures cls == ClassifyIn(catalog, old(rows), b, stage)
      ensures rows == Apply(old(rows), b, stage, cls, now)
      ensures events == old(events) + [Event(b, stage.name, eventTime)]
    {
      var pos := StoredPosition(catalog, rows, b);
      cls := Classify(pos, stage.position);
      StoredPositionOfRow(catalog, rows, b);
      ApplyKeepsCatalog(catalog, rows, b, stage, cls, now);
      if cls == New {
        AddNewBarcode(b, stage, now);
      } else if cls == Old {
        AdvanceBarcode(b, stage, now);
      }
      AddEvent(b, stage, eventTime);
    }

    /**
     * The `/ingest` handler body: resolve the stage once, then classify each
     * barcode in order, insert or advance its row or leave it, append its
     * event, and count its outcome. `clock(i)` is the wall-clock reading
     * taken when the i-th barcode's row is written.
     */
    method Ingest(stageName: string, batch: seq<string>, eventTime: Timestamp, clock: nat -> Timestamp)
      returns (r: Result<Response, Error>)
      requires Valid()
      modifies this
      ensures Valid()
      ensures IngestOutcome(catalog, old(rows), old(events), stageName, batch, eventTime, clock, rows, events, r)
    {
      var resolved := GetStage(stageName);
      if resolved.Failure? {
        return Failure(resolved.error);
      }
      var stage := resolved.value;
      var processed := Counts(0, 0, 0);
      ghost var rows0, events0 := rows, events;
      var i := 0;
      assert batch[..i] == [];
      while i < |batch|
        invariant 0 <= i <= |batch|
        invariant Valid()
        invariant rows == After(catalog, rows0, batch[..i], stage, clock)
        invariant events == events0 + Sightings(batch[..i], stage.name, eventTime)
        invariant processed == Tally(Outcomes(catalog, rows0, batch[..i], stage, clock))
      {
        FoldSnoc(catalog, rows0, batch, i, stage, clock, eventTime);
        var cls := ProcessBarcode(batch[i], stage, clock(i), eventTime);
        processed := Bump(processed, cls);
        i := i + 1;
      }
      assert batch[..|batch|] == batch;
      r := Success(Response(stage.name, stage.position, processed, FinishedMessage));
    }

    /**
     * A whole request: a body that fails validation is rejected with all of
     * its field errors and touches neither store; a valid one is ingested
     * with its cleaned barcode list.
     */
    method Submit(p: Payload, clock: nat -> Timestamp) returns (r: Result<Response, Error>)
      requires Valid()
      modifies this
      ensures Valid()
      ensures ValidatePayload(p).Failure? ==>
        r == Failure(Invalid(ValidatePayload(p).error)) && rows == old(rows) && events == old(events)
      ensures ValidatePayload(p).Success? ==>
        var v := ValidatePayload(p).value;
        IngestOutcome(catalog, old(rows), old(events), v.stageName, v.barcodes, v.eventTime, clock, rows, events, r)
    {
      var checked := ValidatePayload(p);
      if checked.Failure? {
        return Failure(Invalid(checked.error));
      }
      var v := checked.value;
      r := Ingest(v.stageName, v.barcodes, v.eventTime, clock);
    }
  }
}
