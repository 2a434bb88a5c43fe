/**
  The A-to-B handover of a campaign: each generation's last and first windows are replayed
  into observations, and evidence is derived that the two windows meet.
 */
module Handover {
  import opened Wrappers
  import opened Streams
  import opened Powers
  import opened Json
  import opened FixedDecimals
  import opened OrderBook
  import opened DepthContinuity

  datatype Observation = Observation(frameIndex: nat, first: nat, final: nat, digest: string)

  /** What an observation says about the stream, apart from where it was recorded. */
  datatype Core = Core(first: nat, final: nat, digest: string)

  datatype WindowError =
    | BadSnapshot | BadPayload | ReplayFailed(outcome: ApplyOutcome) | StaleAfterLive
    | NoObservation

  /** The loop state of `_materialize_depth_window`. */
  datatype Window = Window(book: Book, observations: seq<Observation>)

  ghost function Digest(H: string -> string, b: Book): string {
    if BookOk(b) && b.state != Empty then H(Material(b)) else ""
  }

  /** One record of a depth window. */
  ghost function WindowStep(H: string -> string, w: Window, payload: Payload, frame: nat)
    : Result<Window, WindowError>
  {
    if !(payload.Some? && payload.value.Object?) then Err(BadPayload)
    else if IsShutdown(payload) then Ok(w)
    else
      var first, final := AsU64(Get(payload.value.fields, "U")), AsU64(Get(payload.value.fields, "u"));
      if first.None? || final.None? then Err(BadPayload)
      else
        var (book, outcome) := ApplyDepth(w.book, payload);
        if outcome == Applied then
          Ok(Window(book, w.observations + [Observation(frame, first.value, final.value, Digest(H, book))]))
        else if outcome == Old then
          if w.observations != [] then Err(StaleAfterLive) else Ok(w)
        else Err(ReplayFailed(outcome))
  }

  ghost function RunWindow(H: string -> string, w: Window, payloads: seq<Payload>, frame: nat)
    : Result<Window, WindowError>
  {
    if payloads == [] then Ok(w)
    else
      var last := |payloads| - 1;
      var before := RunWindow(H, w, payloads[..last], frame);
      if before.Err? then before
      else WindowStep(H, before.value, payloads[last], frame + last)
  }

  /** The observations of a window that starts from a snapshot. */
  ghost function MaterializeDepth(H: string -> string, symbol: string, snapshot: Payload, payloads: seq<Payload>, frame: nat)
    : Result<seq<Observation>, WindowError>
  {
    var (book, loaded) := LoadSnapshot(Book(symbol, Empty, None, map[], map[]), snapshot);
    if !loaded.Loaded? then Err(BadSnapshot)
    else
      var run := RunWindow(H, Window(book, []), payloads, frame);
      if run.Err? then Err(run.error)
      else if run.value.observations == [] then Err(NoObservation)
      else Ok(run.value.observations)
  }

  /** `_materialize_depth_window`: the loop over the records drives one book object. */
  method MaterializeDepthWindow(H: string -> string, symbol: string, snapshot: Payload, payloads: seq<Payload>, frame: nat)
    returns (r: Result<seq<Observation>, WindowError>)
    ensures r == MaterializeDepth(H, symbol, snapshot, payloads, frame)
  {
    hide ApplyDepth, LoadSnapshot, Material, BookOk;
    var book := new LocalOrderBook(symbol);
    var memo := new StringCache();
    var loaded := book.Load(snapshot);
    if !loaded.Loaded? {
      return Err(BadSnapshot);
    }
    ghost var start := Window(book.View(), []);
    var observations: seq<Observation> := [];
    LoadedBookIsOk(symbol, snapshot);
    for i := 0 to |payloads|
      invariant book.Valid() && memo.Valid() && fresh(memo) && fresh(book)
      invariant RunWindow(H, start, payloads[..i], frame) == Ok(Window(book.View(), observations))
    {
      assert payloads[..i + 1][..i] == payloads[..i];
      RunExtends(H, start, payloads, i, frame);
      var payload := payloads[i];
      if !(payload.Some? && payload.value.Object?) {
        RunStops(H, start, payloads, i + 1, frame);
        return Err(BadPayload);
      }
      if Get(payload.value.fields, "e") != Text("serverShutdown") {
        var first, final := AsU64(Get(payload.value.fields, "U")), AsU64(Get(payload.value.fields, "u"));
        if first.None? || final.None? {
          RunStops(H, start, payloads, i + 1, frame);
          return Err(BadPayload);
        }
        AppliedIsLive(book.View(), payload);
        var outcome := book.Apply(payload);
        if outcome == Applied {
          var material := book.StateMaterial(memo);
          observations := observations + [Observation(frame + i, first.value, final.value, H(material))];
        } else if outcome == Old {
          if observations != [] {
            RunStops(H, start, payloads, i + 1, frame);
            return Err(StaleAfterLive);
          }
        } else {
          RunStops(H, start, payloads, i + 1, frame);
          return Err(ReplayFailed(outcome));
        }
      }
    }
    assert payloads[..|payloads|] == payloads;
    if observations == [] {
      return Err(NoObservation);
    }
    return Ok(observations);
  }

  lemma LoadedBookIsOk(symbol: string, snapshot: Payload)
    ensures var (b, loaded) := LoadSnapshot(Book(symbol, Empty, None, map[], map[]), snapshot);
      loaded.Loaded? ==>
        && BookOk(b) && b.state == Syncing && b.symbol == symbol
        && b.lastUpdateId == Some(loaded.updateId) && loaded.updateId >= 0
  {
    LoadKeepsBook(Book(symbol, Empty, None, map[], map[]), snapshot);
  }

  lemma AppliedIsLive(b: Book, payload: Payload)
    requires BookOk(b)
    ensures BookOk(ApplyDepth(b, payload).0)
    ensures ApplyDepth(b, payload).1 == Applied ==> ApplyDepth(b, payload).0.state == Live
    ensures ApplyDepth(b, payload).1 == Old ==> ApplyDepth(b, payload).0 == b
  {
    hide BookOk, ApplyDepth;
    ApplyKeepsBook(b, payload);
  }

  lemma RunExtends(H: string -> string, w: Window, payloads: seq<Payload>, i: nat, frame: nat)
    requires i < |payloads| && RunWindow(H, w, payloads[..i], frame).Ok?
    ensures RunWindow(H, w, payloads[..i + 1], frame) ==
            WindowStep(H, RunWindow(H, w, payloads[..i], frame).value, payloads[i], frame + i)
  {
    hide WindowStep;
    assert payloads[..i + 1][..i] == payloads[..i];
  }

  lemma {:induction false} RunStops(H: string -> string, w: Window, payloads: seq<Payload>, i: nat, frame: nat)
    requires i <= |payloads| && RunWindow(H, w, payloads[..i], frame).Err?
    ensures RunWindow(H, w, payloads, frame) == RunWindow(H, w, payloads[..i], frame)
  {
    hide WindowStep;
    if i < |payloads| {
      var last := |payloads| - 1;
      assert payloads[..last][..i] == payloads[..i];
      RunStops(H, w, payloads[..last], i, frame);
    } else {
      assert payloads[..i] == payloads;
    }
  }

  /** Running two lists one after the other is running their concatenation. */
  lemma {:induction false} RunConcat(H: string -> string, w: Window, a: seq<Payload>, b: seq<Payload>, frame: nat)
    requires RunWindow(H, w, a, frame).Ok?
    ensures RunWindow(H, w, a + b, frame) == RunWindow(H, RunWindow(H, w, a, frame).value, b, frame + |a|)
  {
    hide WindowStep;
    if b == [] {
      assert a + b == a;
    } else {
      var last := |b| - 1;
      RunConcat(H, w, a, b[..last], frame);
      assert (a + b)[..|a + b| - 1] == a + b[..last];
    }
  }

  ghost function CoreOf(o: Observation): Core {
    Core(o.first, o.final, o.digest)
  }

  ghost function Cores(os: seq<Observation>): seq<Core> {
    seq(|os|, i requires 0 <= i < |os| => CoreOf(os[i]))
  }

  lemma CoresConcat(a: seq<Observation>, b: seq<Observation>)
    ensures Cores(a + b) == Cores(a) + Cores(b)
  {
  }

  /**
    What follows depends only on the book: two windows that stand at the same book, each with
    at least one observation, reach the same book with the same further observations.
   */
  lemma {:induction false} FutureDependsOnBook(H: string -> string, w: Window, w': Window, payloads: seq<Payload>, frame: nat, frame': nat)
    requires w.book == w'.book && w.observations != [] && w'.observations != []
    requires RunWindow(H, w, payloads, frame).Ok?
    ensures RunWindow(H, w', payloads, frame').Ok?
    ensures
      var r, r' := RunWindow(H, w, payloads, frame).value, RunWindow(H, w', payloads, frame').value;
      && r.book == r'.book
      && |w.observations| <= |r.observations| && w.observations == r.observations[..|w.observations|]
      && |w'.observations| <= |r'.observations| && w'.observations == r'.observations[..|w'.observations|]
      && Cores(r.observations[|w.observations|..]) == Cores(r'.observations[|w'.observations|..])
  {
    hide WindowStep, Cores;
    if payloads == [] {
      NoCores(w.observations);
      NoCores(w'.observations);
    } else {
      FutureDependsOnBook(H, w, w', payloads[..|payloads| - 1], frame, frame');
      var last := |payloads| - 1;
      var before := RunWindow(H, w, payloads[..last], frame).value;
      var before' := RunWindow(H, w', payloads[..last], frame').value;
      OneMore(H, before, before', payloads[last], frame + last, frame' + last,
              |w.observations|, |w'.observations|);
    }
  }

  lemma NoCores(os: seq<Observation>)
    ensures os[|os|..] == [] && Cores([]) == []
  {
  }

  lemma OneMore(H: string -> string, w: Window, w': Window, payload: Payload, frame: nat, frame': nat, n: nat, n': nat)
    requires w.book == w'.book && w.observations != [] && w'.observations != []
    requires n <= |w.observations| && n' <= |w'.observations|
    requires Cores(w.observations[n..]) == Cores(w'.observations[n'..])
    requires WindowStep(H, w, payload, frame).Ok?
    ensures WindowStep(H, w', payload, frame').Ok?
    ensures
      var r, r' := WindowStep(H, w, payload, frame).value, WindowStep(H, w', payload, frame').value;
      && r.book == r'.book
      && |w.observations| <= |r.observations| && w.observations == r.observations[..|w.observations|]
      && |w'.observations| <= |r'.observations| && w'.observations == r'.observations[..|w'.observations|]
      && Cores(r.observations[n..]) == Cores(r'.observations[n'..])
  {
    hide ApplyDepth, Digest, IsShutdown, AsU64;
    var r, r' := WindowStep(H, w, payload, frame).value, WindowStep(H, w', payload, frame').value;
    if r.observations != w.observations {
      var o, o' := r.observations[|w.observations|], r'.observations[|w'.observations|];
      assert r.observations[n..] == w.observations[n..] + [o];
      assert r'.observations[n'..] == w'.observations[n'..] + [o'];
      CoresConcat(w.observations[n..], [o]);
      CoresConcat(w'.observations[n'..], [o']);
      assert Cores([o]) == [CoreOf(o)] && Cores([o']) == [CoreOf(o')];
    }
  }

  /** The place in the payloads where an observation was made, and the book it was made from. */
  lemma {:induction false} ObservationPlace(H: string -> string, w: Window, payloads: seq<Payload>, frame: nat, k: nat)
    returns (n: nat)
    requires BookOk(w.book) && w.observations == []
    requires RunWindow(H, w, payloads, frame).Ok?
    requires k < |RunWindow(H, w, payloads, frame).value.observations|
    ensures n <= |payloads| && RunWindow(H, w, payloads[..n], frame).Ok?
    ensures
      var r := RunWindow(H, w, payloads, frame).value;
      var mid := RunWindow(H, w, payloads[..n], frame).value;
      && mid.observations == r.observations[..k + 1]
      && BookOk(mid.book) && mid.book.state == Live && mid.book.symbol == w.book.symbol
      && r.observations[k].digest == H(Material(mid.book))
  {
    hide ApplyDepth, BookOk, Material, IsShutdown, AsU64;
    var last := |payloads| - 1;
    var before := RunWindow(H, w, payloads[..last], frame).value;
    var r := RunWindow(H, w, payloads, frame).value;
    RunKeepsBook(H, w, payloads[..last], frame);
    AppliedIsLive(before.book, payloads[last]);
    ApplyKeepsSymbol(before.book, payloads[last]);
    if k < |before.observations| {
      n := ObservationPlace(H, w, payloads[..last], frame, k);
      assert payloads[..last][..n] == payloads[..n];
      assert before.observations[..k + 1] == r.observations[..k + 1];
    } else {
      n := |payloads|;
      assert payloads[..n] == payloads;
      assert r.observations[..k + 1] == r.observations;
    }
  }

  lemma ApplyKeepsSymbol(b: Book, payload: Payload)
    requires BookOk(b)
    ensures ApplyDepth(b, payload).0.symbol == b.symbol
  {
    hide BookOk, ApplyDepth;
    ApplyKeepsBook(b, payload);
  }

  lemma {:induction false} RunKeepsBook(H: string -> string, w: Window, payloads: seq<Payload>, frame: nat)
    requires BookOk(w.book) && RunWindow(H, w, payloads, frame).Ok?
    ensures BookOk(RunWindow(H, w, payloads, frame).value.book)
    ensures RunWindow(H, w, payloads, frame).value.book.symbol == w.book.symbol
  {
    hide ApplyDepth, BookOk, IsShutdown, AsU64, Digest;
    if payloads != [] {
      var last := |payloads| - 1;
      RunKeepsBook(H, w, payloads[..last], frame);
      var before := RunWindow(H, w, payloads[..last], frame).value;
      AppliedIsLive(before.book, payloads[last]);
      ApplyKeepsSymbol(before.book, payloads[last]);
    }
  }

  // ----- depth evidence -----

  datatype DepthEvidence = DepthEvidence(
    predecessor: Observation,
    successor: Observation,
    continuation: Observation)

  datatype EvidenceError = BoundaryOverflow | NoConvergence | NotCovering | ListsDiffer

  /** The last observation with each final sequence number. */
  function ByFinal(os: seq<Observation>): map<nat, Observation> {
    if os == [] then map[]
    else ByFinal(os[..|os| - 1])[os[|os| - 1].final := os[|os| - 1]]
  }

  /** The dictionary holds, for each final number, the last observation that ends there. */
  lemma {:induction false} ByFinalMeans(os: seq<Observation>, f: nat)
    ensures f in ByFinal(os) <==> exists i :: 0 <= i < |os| && os[i].final == f
    ensures f in ByFinal(os) ==> exists i: nat :: EndsLast(os, i, f) && ByFinal(os)[f] == os[i]
  {
    if os != [] {
      var last := |os| - 1;
      var front := os[..last];
      ByFinalMeans(front, f);
      if os[last].final == f {
        assert EndsLast(os, last, f);
      } else if f in ByFinal(front) {
        var i: nat :| EndsLast(front, i, f) && ByFinal(front)[f] == front[i];
        assert os[i] == front[i];
        assert EndsLast(os, i, f);
      }
      assert (exists i :: 0 <= i < |os| && os[i].final == f) ==> os[last].final == f || exists i :: 0 <= i < last && front[i].final == f by {
        if exists i :: 0 <= i < |os| && os[i].final == f {
          var i :| 0 <= i < |os| && os[i].final == f;
          assert i < last ==> front[i].final == f;
        }
      }
    }
  }

  /** The last observation that ends at this number. */
  ghost predicate EndsLast(os: seq<Observation>, i: nat, f: nat) {
    i < |os| && os[i].final == f && forall k :: i < k < |os| ==> os[k].final != f
  }

  /**
    The windows meet: an observation of each ends at the same number with the same digest, and the
    successor's next one bridges past it.
   */
  ghost predicate MeetAt(predecessor: seq<Observation>, successor: seq<Observation>, i: nat, j: nat) {
    && i < |predecessor| && j + 1 < |successor|
    && EndsLast(predecessor, i, successor[j].final) && predecessor[i].digest == successor[j].digest
    && successor[j + 1].first <= successor[j].final + 1 <= successor[j + 1].final
  }

  ghost predicate Meeting(predecessor: seq<Observation>, successor: seq<Observation>, j: nat) {
    exists i: nat :: MeetAt(predecessor, successor, i, j)
  }

  /** Both windows end an observation at the largest sequence number, and the successor goes on. */
  ghost predicate MeetsTheEnd(predecessor: seq<Observation>, successor: seq<Observation>, j: nat) {
    && j + 1 < |successor| && successor[j].final == 0xffff_ffff_ffff_ffff
    && exists i :: 0 <= i < |predecessor| && predecessor[i].final == successor[j].final
  }

  /** The evidence is the last meeting. */
  ghost predicate IsLastMeeting(predecessor: seq<Observation>, successor: seq<Observation>, i: nat, j: nat, e: DepthEvidence) {
    && MeetAt(predecessor, successor, i, j) && (forall k: nat :: j < k ==> !Meeting(predecessor, successor, k))
    && e == DepthEvidence(predecessor[i], successor[j], successor[j + 1])
  }

  ghost predicate SomeMeeting(predecessor: seq<Observation>, successor: seq<Observation>) {
    exists j: nat :: Meeting(predecessor, successor, j)
  }

  ghost predicate SomeMeetsTheEnd(predecessor: seq<Observation>, successor: seq<Observation>) {
    exists j: nat :: MeetsTheEnd(predecessor, successor, j)
  }

  /** Both books hold the same state at this observation and the next frame bridges past it. */
  predicate Converges(byFinal: map<nat, Observation>, successor: seq<Observation>, j: int)
    requires 0 <= j < |successor| - 1
  {
    var boundary, continuation := successor[j], successor[j + 1];
    && boundary.final in byFinal
    && byFinal[boundary.final].digest == boundary.digest
    && continuation.first <= boundary.final + 1 <= continuation.final
  }

  predicate Overflows(byFinal: map<nat, Observation>, successor: seq<Observation>, j: int)
    requires 0 <= j < |successor| - 1
  {
    successor[j].final in byFinal && successor[j].final == U64_MAX
  }

  lemma ConvergesMeans(predecessor: seq<Observation>, successor: seq<Observation>, j: nat)
    requires j < |successor| - 1
    ensures Converges(ByFinal(predecessor), successor, j) <==> Meeting(predecessor, successor, j)
    ensures Overflows(ByFinal(predecessor), successor, j) <==> MeetsTheEnd(predecessor, successor, j)
  {
    hide ByFinal;
    var f := successor[j].final;
    ByFinalMeans(predecessor, f);
    if f in ByFinal(predecessor) {
      var i: nat :| EndsLast(predecessor, i, f) && ByFinal(predecessor)[f] == predecessor[i];
      forall k: nat | MeetAt(predecessor, successor, k, j) ensures k == i {
        assert !(i < k) && !(k < i);
      }
      if Converges(ByFinal(predecessor), successor, j) {
        assert MeetAt(predecessor, successor, i, j);
      }
    }
  }

  lemma SelectedIsMeeting(predecessor: seq<Observation>, successor: seq<Observation>, j: nat) returns (i: nat)
    requires j < |successor| - 1 && Converges(ByFinal(predecessor), successor, j)
    ensures MeetAt(predecessor, successor, i, j) && Meeting(predecessor, successor, j)
    ensures successor[j].final in ByFinal(predecessor) && ByFinal(predecessor)[successor[j].final] == predecessor[i]
  {
    hide ByFinal;
    ByFinalMeans(predecessor, successor[j].final);
    i :| EndsLast(predecessor, i, successor[j].final) && ByFinal(predecessor)[successor[j].final] == predecessor[i];
  }

  /** `_derive_depth_evidence`: the latest meeting wins. */
  method DeriveDepthEvidence(predecessor: seq<Observation>, successor: seq<Observation>)
    returns (r: Result<DepthEvidence, EvidenceError>)
    ensures r == Err(BoundaryOverflow) <==> SomeMeetsTheEnd(predecessor, successor)
    ensures r == Err(NoConvergence) <==> !SomeMeetsTheEnd(predecessor, successor) && !SomeMeeting(predecessor, successor)
    ensures r.Ok? ==> exists i: nat, j: nat :: IsLastMeeting(predecessor, successor, i, j, r.value)
    ensures r.Err? ==> r.error in {BoundaryOverflow, NoConvergence}
  {
    hide ByFinal, Converges, Overflows, MeetsTheEnd, Meeting;
    var byFinal := ByFinal(predecessor);
    var selected: Option<int> := None;
    for j := 0 to if |successor| == 0 then 0 else |successor| - 1
      invariant selected.Some? ==> 0 <= selected.value < j && Converges(byFinal, successor, selected.value)
      invariant forall k: nat :: k < j && (selected.None? || selected.value < k) ==> !Meeting(predecessor, successor, k)
      invariant forall k: nat :: k < j ==> !MeetsTheEnd(predecessor, successor, k)
    {
      ConvergesMeans(predecessor, successor, j);
      if Overflows(byFinal, successor, j) {
        return Err(BoundaryOverflow);
      }
      if Converges(byFinal, successor, j) {
        selected := Some(j);
      }
    }
    NoneAtTheEnd(predecessor, successor);
    if selected.None? {
      return Err(NoConvergence);
    }
    var j := selected.value;
    ghost var i := SelectedIsMeeting(predecessor, successor, j);
    r := Ok(DepthEvidence(byFinal[successor[j].final], successor[j], successor[j + 1]));
    assert IsLastMeeting(predecessor, successor, i, j, r.value);
  }

  /** The last observation of the successor has none to go on with. */
  lemma NoneAtTheEnd(predecessor: seq<Observation>, successor: seq<Observation>)
    ensures forall k: nat :: k + 1 >= |successor| ==> !Meeting(predecessor, successor, k) && !MeetsTheEnd(predecessor, successor, k)
  {
  }

  /** A window before its first record, its records, and its first frame index. */
  datatype Source = Source(start: Window, payloads: seq<Payload>, frame: nat)

  ghost function Run(H: string -> string, s: Source): Result<Window, WindowError> {
    RunWindow(H, s.start, s.payloads, s.frame)
  }

  /** The source cut off after its first `n` records. */
  ghost function Take(s: Source, n: nat): Source
    requires n <= |s.payloads|
  {
    s.(payloads := s.payloads[..n])
  }

  ghost predicate SourceOk(H: string -> string, s: Source) {
    BookOk(s.start.book) && s.start.observations == [] && Run(H, s).Ok?
  }

  ghost predicate LiveState(H: string -> string, s: Source, n: nat)
    requires n <= |s.payloads|
  {
    var w := Run(H, Take(s, n));
    w.Ok? && BookOk(w.value.book) && w.value.book.state == Live
  }

  /** No two book states of the two windows share a digest unless they share their text. */
  ghost predicate CollisionFree(H: string -> string, p: Source, s: Source) {
    forall m: nat, n: nat ::
      (m <= |p.payloads| && n <= |s.payloads| && LiveState(H, p, m) && LiveState(H, s, n)
       && H(Material(Run(H, Take(p, m)).value.book)) == H(Material(Run(H, Take(s, n)).value.book)))
      ==> Material(Run(H, Take(p, m)).value.book) == Material(Run(H, Take(s, n)).value.book)
  }

  /** The predecessor's records up to `m` followed by the successor's from `n` on. */
  ghost function Spliced(p: Source, m: nat, s: Source, n: nat): Source
    requires m <= |p.payloads| && n <= |s.payloads|
  {
    p.(payloads := p.payloads[..m] + s.payloads[n..])
  }

  /** At the splice both books are equal, and the spliced replay shows both halves unchanged. */
  ghost predicate Splices(H: string -> string, p: Source, i: nat, m: nat, s: Source, j: nat, n: nat)
    requires SourceOk(H, p) && SourceOk(H, s)
    requires i < |Run(H, p).value.observations| && j < |Run(H, s).value.observations|
  {
    && m <= |p.payloads| && n <= |s.payloads|
    && Run(H, Take(p, m)).Ok? && Run(H, Take(s, n)).Ok?
    && Run(H, Take(p, m)).value.book == Run(H, Take(s, n)).value.book
    && Run(H, Spliced(p, m, s, n)).Ok?
    && Run(H, Spliced(p, m, s, n)).value.book == Run(H, s).value.book
    && Cores(Run(H, Spliced(p, m, s, n)).value.observations)
       == Cores(Run(H, p).value.observations[..i + 1]) + Cores(Run(H, s).value.observations[j + 1..])
  }

  /**
    Handover is transparent.  Where both windows show the same digest, both books are equal; the
    predecessor's frames up to there followed by the successor's later frames are a gap-free
    replay, and its observations are the predecessor's up to the boundary followed by the
    successor's after it.
   */
  lemma {:induction false} HandoverIsTransparent(H: string -> string, p: Source, i: nat, s: Source, j: nat)
    returns (m: nat, n: nat)
    requires SourceOk(H, p) && SourceOk(H, s)
    requires i < |Run(H, p).value.observations| && j < |Run(H, s).value.observations|
    requires Run(H, p).value.observations[i].digest == Run(H, s).value.observations[j].digest
    requires CollisionFree(H, p, s)
    ensures Splices(H, p, i, m, s, j, n)
  {
    hide WindowStep, BookOk, Material, Cores, RunWindow;
    m := ObservationPlace(H, p.start, p.payloads, p.frame, i);
    n := ObservationPlace(H, s.start, s.payloads, s.frame, j);
    var mid, mid' := Run(H, Take(p, m)).value, Run(H, Take(s, n)).value;
    assert LiveState(H, p, m) && LiveState(H, s, n);
    MaterialIsInjective(mid.book, mid'.book);
    assert s.payloads == s.payloads[..n] + s.payloads[n..];
    RunConcat(H, s.start, s.payloads[..n], s.payloads[n..], s.frame);
    FutureDependsOnBook(H, mid', mid, s.payloads[n..], s.frame + n, p.frame + m);
    RunConcat(H, p.start, p.payloads[..m], s.payloads[n..], p.frame);
    var r := Run(H, Spliced(p, m, s, n)).value;
    assert r.observations == mid.observations + r.observations[|mid.observations|..];
    CoresConcat(mid.observations, r.observations[|mid.observations|..]);
  }

  /** The evidence `DeriveDepthEvidence` accepts is such a point. */
  lemma {:induction false} EvidenceIsASplice(H: string -> string, p: Source, i: nat, s: Source, j: nat)
    returns (m: nat, n: nat)
    requires SourceOk(H, p) && SourceOk(H, s) && CollisionFree(H, p, s)
    requires MeetAt(Run(H, p).value.observations, Run(H, s).value.observations, i, j)
    ensures Splices(H, p, i, m, s, j, n)
  {
    hide Run, CollisionFree, Splices, BookOk;
    m, n := HandoverIsTransparent(H, p, i, s, j);
  }

  // ----- consequence of the continuity scan -----

  /**
    A window over records that the segment scanner accepted cannot meet a gap or a stale update
    after going live: only malformed levels or an empty or crossed book can still fail it.
   */
  lemma {:induction false} AcceptedWindowFailsOnlyOnLevels(H: string -> string, st: Sequence, records: seq<RawRecord>, b: Book, snapshotSequence: nat)
    requires !st.started && b.state == Syncing && b.lastUpdateId == Some(snapshotSequence) && BookOk(b)
    requires ValidateAll(st, records, Depth, b.symbol, snapshotSequence).Ok?
    ensures
      var run := RunWindow(H, Window(b, []), Payloads(records), 0);
      && (run.Err? ==> run.error in {ReplayFailed(Rejected), ReplayFailed(InvariantBroken)})
      && (run == Err(ReplayFailed(Rejected)) ==> SomeBadLevels(records, b.symbol))
      && (run.Ok? ==>
            InStep(ValidateAll(st, records, Depth, b.symbol, snapshotSequence).value, run.value.book,
                   AllApplied(|run.value.observations|), snapshotSequence))
  {
    hide Validate, ApplyDepth, BookOk, Digest, WindowStep, BadLevels;
    if records != [] {
      var last := |records| - 1;
      var front := records[..last];
      assert Payloads(records)[..last] == Payloads(front);
      AcceptedWindowFailsOnlyOnLevels(H, st, front, b, snapshotSequence);
      var run := RunWindow(H, Window(b, []), Payloads(front), 0);
      if SomeBadLevels(front, b.symbol) {
        var i :| 0 <= i < |front| && BadLevels(front[i].payload, b.symbol);
        assert BadLevels(records[i].payload, b.symbol);
      }
      if run.Ok? {
        RunKeepsBook(H, Window(b, []), Payloads(front), 0);
        var before := ValidateAll(st, front, Depth, b.symbol, snapshotSequence).value;
        var after := ValidateAll(st, records, Depth, b.symbol, snapshotSequence).value;
        AcceptedStep(H, before, after, records[last], run.value, last, snapshotSequence);
      }
    }
  }

  /** Some record of the window is an update whose levels are not well-formed decimals. */
  ghost predicate SomeBadLevels(records: seq<RawRecord>, symbol: string) {
    exists i :: 0 <= i < |records| && BadLevels(records[i].payload, symbol)
  }

  lemma AcceptedStep(H: string -> string, before: Sequence, after: Sequence, record: RawRecord, w: Window, frame: nat, snapshotSequence: nat)
    requires BookOk(w.book)
    requires Validate(before, record, Depth, w.book.symbol, snapshotSequence) == Ok(after)
    requires InStep(before, w.book, AllApplied(|w.observations|), snapshotSequence)
    ensures
      var step := WindowStep(H, w, record.payload, frame);
      && (step.Err? ==> step.error in {ReplayFailed(Rejected), ReplayFailed(InvariantBroken)})
      && (step == Err(ReplayFailed(Rejected)) ==> BadLevels(record.payload, w.book.symbol))
      && (step.Ok? ==>
            InStep(after, step.value.book, AllApplied(|step.value.observations|), snapshotSequence))
  {
    hide Validate, ApplyDepth, BookOk, Digest, BadLevels;
    var applied := AllApplied(|w.observations|);
    assert applied + [Applied] == AllApplied(|applied| + 1);
    AcceptedHasFields(before, record, w.book.symbol, snapshotSequence);
    AppliedIsLive(w.book, record.payload);
    OneUpdate(before, after, record, w.book, applied, snapshotSequence);
    if w.observations != [] {
      assert applied[0] == Applied;
    }
  }

  ghost function AllApplied(n: nat): seq<ApplyOutcome> {
    seq(n, _ => Applied)
  }

  ghost function Payloads(records: seq<RawRecord>): seq<Payload> {
    seq(|records|, i requires 0 <= i < |records| => records[i].payload)
  }

  lemma AcceptedHasFields(st: Sequence, record: RawRecord, symbol: string, snapshotSequence: nat)
    requires Validate(st, record, Depth, symbol, snapshotSequence).Ok?
    ensures record.payload.Some? && record.payload.value.Object?
    ensures !IsShutdown(record.payload) ==>
      && AsU64(Get(record.payload.value.fields, "U")).Some?
      && AsU64(Get(record.payload.value.fields, "u")).Some?
  {
  }
}
