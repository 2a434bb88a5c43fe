/** The segments that a writer produces from payloads, for the journals given as examples. */
module ArbitrationWriter {
  import opened Wrappers
  import opened ArbitrationAudit
  import opened ArbitrationRuns

  // ----- records shared by the examples -----

  const ONE_DIGEST: Digest := "1111111111111111111111111111111111111111111111111111111111111111"
  const THREE_DIGEST: Digest := "3333333333333333333333333333333333333333333333333333333333333333"
  const FIVE_DIGEST: Digest := "5555555555555555555555555555555555555555555555555555555555555555"
  const LINEAGE: Digest := "cccccccccccccccccccccccccccccccccccccccccccccccccccccccccccccccc"

  function Opening(symbol: string): Payload {
    Started(Some(symbol), NoFloor, [])
  }

  function Closing(trades: nat, depthFrames: nat, gaps: nat, lateCorrections: nat): Payload {
    Terminal(true, Counters(trades, depthFrames, gaps, lateCorrections), None, None)
  }

  // ----- writing -----

  /** The segment an honest writer produces from payloads. */
  function Write(digest: Body -> Digest, ps: seq<Payload>): seq<Envelope> {
    if ps == [] then []
    else
      var before := Write(digest, ps[..|ps| - 1]);
      var body := Body(|ps| - 1, LastSha(before), ps[|ps| - 1]);
      before + [Envelope(body, digest(body))]
  }

  lemma {:induction false} WriteSize(digest: Body -> Digest, ps: seq<Payload>)
    ensures |Write(digest, ps)| == |ps| && Payloads(Write(digest, ps)) == ps
  {
    if ps != [] {
      WriteSize(digest, ps[..|ps| - 1]);
      assert Write(digest, ps)[..|ps| - 1] == Write(digest, ps[..|ps| - 1]);
    }
  }

  /** A written record passes the chain checks; only its own rule can refuse it. */
  lemma WrittenStep(digest: Body -> Digest, st: Audit, ps: seq<Payload>, p: Payload)
    requires RunFile(digest, st, Write(digest, ps)).Some?
    ensures
      var b := RunFile(digest, st, Write(digest, ps)).value;
      !b.terminalSeen && OpensRightly(b, p, |ps|) && CoreStep(b.core, p).Some? ==>
        && RunFile(digest, st, Write(digest, ps + [p])).Some?
        && var a := RunFile(digest, st, Write(digest, ps + [p])).value;
           && a == b.(core := CoreStep(b.core, p).value,
                      symbol := if p.Started? then p.symbol else b.symbol,
                      terminalSeen := p.Terminal?,
                      lastRecordSha := LastSha(Write(digest, ps + [p])))
  {
    hide CoreStep, OpensRightly;
    WriteSize(digest, ps);
    WriteSize(digest, ps + [p]);
    assert (ps + [p])[..|ps|] == ps;
    assert Write(digest, ps + [p])[..|ps|] == Write(digest, ps);
  }

  lemma EmptyFile(digest: Body -> Digest, st: Audit)
    ensures RunFile(digest, st, Write(digest, [])) == Some(Opened(st))
  {
  }

  lemma OneSegment(digest: Body -> Digest, segment: Segment)
    requires segment.envelopes != [] && RunFile(digest, FRESH_AUDIT, segment.envelopes).Some?
    ensures RunSet(digest, [segment]) == Some(Closed(RunFile(digest, FRESH_AUDIT, segment.envelopes).value, segment.tail))
    ensures Flatten([segment]) == Payloads(segment.envelopes)
  {
    hide RunFile;
    assert [segment][..0] == [];
  }
}
