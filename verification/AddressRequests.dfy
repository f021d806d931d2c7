/** Requests for free addresses: the texts of networks, each scanned in turn. */
module AddressRequests {
  import opened BigEndian
  import opened Common
  import opened FreeAddresses
  import opened WholeSpace

  /** The text of a requested network: rejected by the parser, an IPv4 network (`plain` when the text
      is the canonical spelling of address and prefix length), or an IPv6 network. */
  datatype NetworkText = Malformed | V4(ip: seq<Byte>, ones: nat, plain: bool) | V6(canonical: bool)
  {
    predicate Valid() {
      V4? ==> |ip| == 4 && ones <= 32
    }

    predicate Canonical()
      requires Valid()
    {
      match this
      case Malformed => false
      case V4(ip, ones, plain) => plain && Aligned(Value(ip), ChunkSize(ones))
      case V6(canonical) => canonical
    }
  }

  predicate IsWholeSpace(text: NetworkText)
    requires text.Valid()
  {
    text.V4? && text.Canonical() && text.ones == 0
  }

  /** What the scan of a network returns. `answers` is nmap on each pass over the address space; only
      the scan of 0.0.0.0/0 makes more than one. */
  ghost predicate Scanned(answers: Answers, text: NetworkText, free: seq<string>, outcome: Outcome) {
    text.Valid() &&
    if text.Malformed? then outcome == BadCidr && free == []
    else if !text.Canonical() then outcome == NotCanonical && free == []
    else if text.V6? then outcome == Succeeded && free == []
    else if IsWholeSpace(text) then exists k :: StopsWith(answers, k, free, outcome)
    else exists k :: ChunkedScan(answers(0), Value(text.ip), text.ones, k, free, outcome)
  }

  /** The scan of the network ends. */
  ghost predicate Ends(answers: Answers, text: NetworkText) {
    text.Valid() && (IsWholeSpace(text) ==> exists k: nat :: Stops(answers, k))
  }

  method ScanNetwork(text: NetworkText, answers: Answers)
    returns (free: seq<string>, outcome: Outcome)
    requires Ends(answers, text)
    ensures Scanned(answers, text, free, outcome)
    ensures |free| <= 9023
    ensures outcome == BadCidr <==> text.Malformed?
    ensures text.V6? ==> free == [] && outcome == if text.canonical then Succeeded else NotCanonical
    ensures text.V4? ==> (outcome == NotCanonical <==> !text.plain || !Aligned(Value(text.ip), ChunkSize(text.ones)))
    ensures text.V4? && text.Canonical() ==> outcome != NotCanonical && outcome != BadCidr
    ensures text.V4? && text.Canonical() && text.ones > 0 ==>
              && free <= AllFree(answers(0), Value(text.ip), text.ones)
              && Distinct(free)
              && (outcome.Succeeded? && |free| < 8000 ==>
                free == AllFree(answers(0), Value(text.ip), text.ones))
  {
    hide Floor, Pow2, Value, ChunkedScan, StopsWith, Stops, AllFree;
    if text.Malformed? {
      return [], BadCidr;
    }
    if !text.Canonical() {
      return [], NotCanonical;
    }
    if text.V6? {
      // an IPv6 address has no four-byte form, and no network contains the missing address
      return [], Succeeded;
    }
    ghost var k;
    if text.ones == 0 {
      free, outcome, k := ScanWholeSpace(answers);
      AnswerBound(answers, k, free, outcome);
      return;
    }
    SpaceBound(text.ip);
    free, outcome, k := ScanChunks(text.ip, text.ones, answers(0));
    ChunkedScanRefinesFilter(answers(0), Value(text.ip), text.ones, k, free, outcome);
  }

  datatype Record = Record(network: NetworkText, free: seq<string>)

  /** The answer to a request: a record per network in request order, or the first failure. */
  datatype Answer = BadRequest | Failed(outcome: Outcome) | Records(records: seq<Record>)

  ghost predicate ScansTo(answers: Answers, text: NetworkText, outcome: Outcome) {
    exists free :: Scanned(answers, text, free, outcome)
  }

  /** Every network whose turn comes has a scan that ends; `answers(i)` is nmap during network i. */
  ghost predicate AllEnd(answers: nat -> Answers, texts: seq<NetworkText>) {
    forall i | 0 <= i < |texts| && (forall j | 0 <= j < i :: ScansTo(answers(j), texts[j], Succeeded)) ::
      Ends(answers(i), texts[i])
  }

  method GetFreeAddresses(request: Option<seq<NetworkText>>, answers: nat -> Answers)
    returns (answer: Answer, ghost done: nat)
    requires request.Some? ==> AllEnd(answers, request.value)
    ensures request.None? <==> answer.BadRequest?
    ensures answer.Records? ==>
              && |answer.records| == |request.value|
              && (forall i | 0 <= i < |request.value| ::
                    && answer.records[i].network == request.value[i]
                    && Scanned(answers(i), request.value[i], answer.records[i].free, Succeeded))
    ensures answer.Failed? ==>
              && done < |request.value| && !answer.outcome.Succeeded?
              && ScansTo(answers(done), request.value[done], answer.outcome)
              && (forall i | 0 <= i < done :: ScansTo(answers(i), request.value[i], Succeeded))
  {
    hide Scanned, Ends;
    done := 0;
    if request.None? {
      return BadRequest, done;
    }
    var records: seq<Record> := [];
    for i := 0 to |request.value|
      invariant |records| == i == done
      invariant forall j | 0 <= j < i ::
                  && records[j].network == request.value[j]
                  && Scanned(answers(j), request.value[j], records[j].free, Succeeded)
    {
      assert forall j | 0 <= j < i :: ScansTo(answers(j), request.value[j], Succeeded);
      var free, outcome := ScanNetwork(request.value[i], answers(i));
      if !outcome.Succeeded? {
        return Failed(outcome), done;
      }
      records := records + [Record(request.value[i], free)];
      done := done + 1;
    }
    return Records(records), done;
  }
}
