/**
  What a depth window says, told from its records and the books between them.
 */
module HandoverMeaning {
  import opened Wrappers
  import opened Streams
  import opened Powers
  import opened Json
  import opened OrderBook
  import opened DepthContinuity
  import opened SequenceHistory
  import opened Handover

  // ----- windows -----

  predicate IsNotice(payload: Payload) {
    payload.Some? && payload.value.Object? && Has(payload.value.fields, "e", Text("serverShutdown"))
  }

  /** The book after a list of records: every one but the shutdown notices is applied. */
  ghost function BookAfter(b: Book, payloads: seq<Payload>): Book {
    if payloads == [] then b
    else
      var last := |payloads| - 1;
      var before := BookAfter(b, payloads[..last]);
      if IsNotice(payloads[last]) then before else ApplyDepth(before, payloads[last]).0
  }

  /** How the record fares on the book before it. */
  ghost function OutcomeAt(b: Book, payloads: seq<Payload>, i: nat): ApplyOutcome
    requires i < |payloads|
  {
    ApplyDepth(BookAfter(b, payloads[..i]), payloads[i]).1
  }

  ghost predicate IsApplied(b: Book, payloads: seq<Payload>, i: nat) {
    i < |payloads| && !IsNotice(payloads[i]) && OutcomeAt(b, payloads, i) == Applied
  }

  /**
    The record can be part of a window: a notice, an applied update, or an old one while none has
    been applied.
   */
  ghost predicate Fits(b: Book, payloads: seq<Payload>, i: nat)
    requires i < |payloads|
  {
    && payloads[i].Some? && payloads[i].value.Object?
    && (IsNotice(payloads[i]) ||
        (&& IsU64(payloads[i].value.fields, "U") && IsU64(payloads[i].value.fields, "u")
         && (OutcomeAt(b, payloads, i) == Applied ||
             (OutcomeAt(b, payloads, i) == Old && forall j: nat :: j < i ==> !IsApplied(b, payloads, j)))))
  }

  ghost predicate AllFit(b: Book, payloads: seq<Payload>) {
    forall i :: 0 <= i < |payloads| ==> Fits(b, payloads, i)
  }

  /** The positions of the applied updates, in order. */
  ghost function AppliedAt(b: Book, payloads: seq<Payload>): seq<nat> {
    if payloads == [] then []
    else
      var last := |payloads| - 1;
      AppliedAt(b, payloads[..last]) + (if IsApplied(b, payloads, last) then [last] else [])
  }

  lemma {:induction false} AppliedAtMeans(b: Book, payloads: seq<Payload>)
    ensures
      var at := AppliedAt(b, payloads);
      && (forall j :: 0 <= j < |at| ==> at[j] < |payloads|)
      && (forall i, j :: 0 <= i < j < |at| ==> at[i] < at[j])
      && (forall i: nat :: i < |payloads| ==> (i in at <==> IsApplied(b, payloads, i)))
  {
    hide IsApplied;
    if payloads != [] {
      var last := |payloads| - 1;
      AppliedAtMeans(b, payloads[..last]);
      AppliedEarlier(b, payloads, last);
      var at, before := AppliedAt(b, payloads), AppliedAt(b, payloads[..last]);
      assert last !in before;
      forall i: nat | i < |payloads| ensures i in at <==> IsApplied(b, payloads, i) {
        assert i in at <==> i in before || (i == last && IsApplied(b, payloads, last));
      }
    }
  }

  lemma AppliedEarlier(b: Book, payloads: seq<Payload>, n: nat)
    requires n <= |payloads|
    ensures forall i: nat :: i < n ==> (IsApplied(b, payloads[..n], i) <==> IsApplied(b, payloads, i))
  {
    hide BookAfter, ApplyDepth, IsNotice;
    forall i: nat | i < n ensures IsApplied(b, payloads[..n], i) <==> IsApplied(b, payloads, i) {
      assert payloads[..n][..i] == payloads[..i];
    }
  }

  /** The observation of the update at `i`: its own place and numbers, and the book right after it. */
  ghost predicate Observes(H: string -> string, b: Book, payloads: seq<Payload>, frame: nat, i: nat, o: Observation) {
    && i < |payloads| && o.frameIndex == frame + i
    && payloads[i].Some? && payloads[i].value.Object?
    && HasU64(payloads[i].value.fields, "U", o.first) && HasU64(payloads[i].value.fields, "u", o.final)
    && BookOk(BookAfter(b, payloads[..i + 1])) && BookAfter(b, payloads[..i + 1]).state == Live
    && o.digest == H(Material(BookAfter(b, payloads[..i + 1])))
  }

  ghost predicate Observed(H: string -> string, b: Book, payloads: seq<Payload>, frame: nat, os: seq<Observation>) {
    && |os| == |AppliedAt(b, payloads)|
    && forall j :: 0 <= j < |os| ==> Observes(H, b, payloads, frame, AppliedAt(b, payloads)[j], os[j])
  }

  lemma AllFitNext(b: Book, payloads: seq<Payload>)
    requires payloads != []
    ensures AllFit(b, payloads) <==> AllFit(b, payloads[..|payloads| - 1]) && Fits(b, payloads, |payloads| - 1)
  {
    hide BookAfter, ApplyDepth, IsNotice, IsU64;
    var last := |payloads| - 1;
    var front := payloads[..last];
    AppliedEarlier(b, payloads, last);
    forall i | 0 <= i < last ensures Fits(b, front, i) <==> Fits(b, payloads, i) {
      assert front[..i] == payloads[..i];
    }
    if AllFit(b, payloads) {
      forall i | 0 <= i < last ensures Fits(b, front, i) {
        assert Fits(b, payloads, i);
      }
    }
    if AllFit(b, front) && Fits(b, payloads, last) {
      forall i | 0 <= i < |payloads| ensures Fits(b, payloads, i) {
        assert i < last ==> Fits(b, front, i);
      }
    }
  }

  lemma NoticeMeans(payload: Payload)
    ensures IsNotice(payload) <==> IsShutdown(payload)
  {
  }

  lemma {:induction false} BookAfterIsOk(b: Book, payloads: seq<Payload>)
    requires BookOk(b)
    ensures BookOk(BookAfter(b, payloads))
  {
    hide ApplyDepth, BookOk, IsNotice;
    if payloads != [] {
      var last := |payloads| - 1;
      BookAfterIsOk(b, payloads[..last]);
      AppliedIsLive(BookAfter(b, payloads[..last]), payloads[last]);
    }
  }

  lemma ObservedNext(H: string -> string, b: Book, payloads: seq<Payload>, frame: nat, os: seq<Observation>, o: Observation)
    requires payloads != [] && Observed(H, b, payloads[..|payloads| - 1], frame, os)
    ensures
      var last := |payloads| - 1;
      if IsApplied(b, payloads, last)
      then Observes(H, b, payloads, frame, last, o) ==> Observed(H, b, payloads, frame, os + [o])
      else Observed(H, b, payloads, frame, os)
  {
    hide IsApplied, Observes;
    var last := |payloads| - 1;
    var front, at := payloads[..last], AppliedAt(b, payloads[..last]);
    forall j | 0 <= j < |os| ensures Observes(H, b, payloads, frame, at[j], os[j]) {
      SameObservation(H, b, payloads, frame, at[j], os[j]);
    }
  }

  lemma SameObservation(H: string -> string, b: Book, payloads: seq<Payload>, frame: nat, i: nat, o: Observation)
    requires payloads != [] && Observes(H, b, payloads[..|payloads| - 1], frame, i, o)
    ensures Observes(H, b, payloads, frame, i, o)
  {
    hide BookAfter, Material, BookOk;
    assert payloads[..|payloads| - 1][..i + 1] == payloads[..i + 1];
  }

  lemma BookAfterNext(b: Book, payloads: seq<Payload>)
    requires payloads != []
    ensures
      var last := |payloads| - 1;
      var before := BookAfter(b, payloads[..last]);
      BookAfter(b, payloads) == if IsNotice(payloads[last]) then before else ApplyDepth(before, payloads[last]).0
  {
    hide ApplyDepth, IsNotice;
  }

  /** One record of a window, on the book before it. */
  lemma StepMeans(H: string -> string, b: Book, payloads: seq<Payload>, frame: nat, w: Window)
    requires BookOk(b) && payloads != []
    requires
      var front := payloads[..|payloads| - 1];
      w.book == BookAfter(b, front) && BookOk(w.book)
      && (w.observations == [] <==> forall j: nat :: j < |front| ==> !IsApplied(b, payloads, j))
    ensures
      var last := |payloads| - 1;
      var step := WindowStep(H, w, payloads[last], frame + last);
      && (step.Ok? <==> Fits(b, payloads, last))
      && (step.Ok? ==>
            && step.value.book == BookAfter(b, payloads)
            && (if IsApplied(b, payloads, last)
                then exists o :: step.value.observations == w.observations + [o] && Observes(H, b, payloads, frame, last, o)
                else step.value.observations == w.observations))
  {
    hide ApplyDepth, BookOk, BookAfter, Material, IsNotice;
    var last := |payloads| - 1;
    var p := payloads[last];
    NoticeMeans(p);
    BookAfterNext(b, payloads);
    AppliedIsLive(w.book, p);
    assert payloads[..last + 1] == payloads;
    if p.Some? && p.value.Object? && !IsNotice(p) {
      NumbersMean(p.value.fields, "U");
      NumbersMean(p.value.fields, "u");
      var step := WindowStep(H, w, p, frame + last);
      if step.Ok? && IsApplied(b, payloads, last) {
        var o := step.value.observations[|w.observations|];
        assert step.value.observations == w.observations + [o];
        assert Observes(H, b, payloads, frame, last, o);
      }
    }
  }

  lemma NumbersMean(fields: map<string, Value>, key: string)
    ensures AsU64(Get(fields, key)).Some? <==> IsU64(fields, key)
    ensures IsU64(fields, key) ==> AsU64(Get(fields, key)) == Some(fields[key].number) && HasU64(fields, key, fields[key].number)
  {
  }

  /**
    A depth window succeeds exactly when every record fits; it then ends at the book of all its
    records, with one observation for each applied update: its place, its numbers and the digest
    of the book right after it.
   */
  lemma {:induction false} WindowIsExact(H: string -> string, b: Book, payloads: seq<Payload>, frame: nat)
    requires BookOk(b)
    ensures
      var run := RunWindow(H, Window(b, []), payloads, frame);
      && (run.Ok? <==> AllFit(b, payloads))
      && (run.Ok? ==> run.value.book == BookAfter(b, payloads) && Observed(H, b, payloads, frame, run.value.observations))
  {
    hide WindowStep, BookOk, IsApplied, Fits, AllFit, Observes;
    if payloads == [] {
      NothingFits(b);
    } else {
      var last := |payloads| - 1;
      var front := payloads[..last];
      WindowIsExact(H, b, front, frame);
      AllFitNext(b, payloads);
      var run := RunWindow(H, Window(b, []), front, frame);
      if run.Ok? {
        BookAfterIsOk(b, front);
        NoneApplied(b, payloads, run.value.observations);
        StepMeans(H, b, payloads, frame, run.value);
        var step := WindowStep(H, run.value, payloads[last], frame + last);
        if step.Ok? {
          if IsApplied(b, payloads, last) {
            var o :| step.value.observations == run.value.observations + [o] && Observes(H, b, payloads, frame, last, o);
            ObservedNext(H, b, payloads, frame, run.value.observations, o);
          } else {
            ObservedNext(H, b, payloads, frame, run.value.observations, Observation(0, 0, 0, ""));
          }
        }
      }
    }
  }

  lemma NothingFits(b: Book)
    ensures AllFit(b, []) && AppliedAt(b, []) == []
  {
  }

  lemma NoneApplied(b: Book, payloads: seq<Payload>, os: seq<Observation>)
    requires payloads != [] && |os| == |AppliedAt(b, payloads[..|payloads| - 1])|
    ensures os == [] <==> forall j: nat :: j < |payloads| - 1 ==> !IsApplied(b, payloads, j)
  {
    hide IsApplied, AppliedAt;
    var front := payloads[..|payloads| - 1];
    AppliedAtMeans(b, front);
    AppliedEarlier(b, payloads, |front|);
    if os != [] {
      var i := AppliedAt(b, front)[0];
      assert i in AppliedAt(b, front);
      assert IsApplied(b, front, i);
    }
  }

  /**
    `_materialize_depth_window` returns the observations of a window exactly when the snapshot
    loads, every record fits after it and some update is applied.
   */
  lemma {:induction false} DepthWindowIsExact(H: string -> string, symbol: string, snapshot: Payload, payloads: seq<Payload>, frame: nat)
    ensures
      var (b, loaded) := LoadSnapshot(Book(symbol, Empty, None, map[], map[]), snapshot);
      var r := MaterializeDepth(H, symbol, snapshot, payloads, frame);
      && (r.Ok? <==> loaded.Loaded? && AllFit(b, payloads) && AppliedAt(b, payloads) != [])
      && (r.Ok? ==> Observed(H, b, payloads, frame, r.value))
      && (r == Err(BadSnapshot) <==> !loaded.Loaded?)
      && (r == Err(NoObservation) <==> loaded.Loaded? && AllFit(b, payloads) && AppliedAt(b, payloads) == [])
  {
    hide LoadSnapshot, AllFit, RunWindow, BookOk, AppliedAt;
    var (b, loaded) := LoadSnapshot(Book(symbol, Empty, None, map[], map[]), snapshot);
    LoadedBookIsOk(symbol, snapshot);
    if loaded.Loaded? {
      WindowIsExact(H, b, payloads, frame);
      FailsInARecord(H, Window(b, []), payloads, frame);
    }
  }

  lemma {:induction false} FailsInARecord(H: string -> string, w: Window, payloads: seq<Payload>, frame: nat)
    ensures RunWindow(H, w, payloads, frame).Err? ==> RunWindow(H, w, payloads, frame).error !in {BadSnapshot, NoObservation}
  {
    hide ApplyDepth, IsShutdown;
    if payloads != [] {
      FailsInARecord(H, w, payloads[..|payloads| - 1], frame);
    }
  }
}
