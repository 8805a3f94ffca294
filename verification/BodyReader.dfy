/** Reading a response body under a byte budget. */
module BodyReader {
  import opened Wrappers

  type Byte = bv8

  /** What the transport delivers next. */
  datatype Arrival = Chunk(bytes: seq<Byte>) | Broken | Expired

  datatype BodyReadError = TooLarge(maxBytes: nat, receivedBytes: nat) | TimedOut | Transport

  type Body = Result<seq<Byte>, BodyReadError>

  /** The bytes of the first `n` arrivals. */
  function Received(arrivals: seq<Arrival>, n: nat): seq<Byte>
    requires n <= |arrivals|
  {
    if n == 0 then []
    else Received(arrivals, n - 1) + if arrivals[n - 1].Chunk? then arrivals[n - 1].bytes else []
  }

  /** The first `n` arrivals are chunks that stay within the budget together. */
  ghost predicate Fits(arrivals: seq<Arrival>, maxBytes: nat, n: nat)
    requires n <= |arrivals|
  {
    (forall i | 0 <= i < n :: arrivals[i].Chunk?) && |Received(arrivals, n)| <= maxBytes
  }

  /** `stop` is the first arrival that is no chunk or takes the body over the budget, or the end. */
  ghost predicate StopsAt(arrivals: seq<Arrival>, maxBytes: nat, stop: nat) {
    && stop <= |arrivals|
    && Fits(arrivals, maxBytes, stop)
    && (stop < |arrivals| ==> !Fits(arrivals, maxBytes, stop + 1))
  }

  /** The outcome that belongs to a stopping point. */
  ghost function Outcome(arrivals: seq<Arrival>, maxBytes: nat, stop: nat): Body
    requires stop <= |arrivals|
  {
    if stop == |arrivals| then Ok(Received(arrivals, stop))
    else match arrivals[stop]
      case Chunk(_) => Err(TooLarge(maxBytes, |Received(arrivals, stop + 1)|))
      case Broken => Err(Transport)
      case Expired => Err(TimedOut)
  }

  /** Every stream has one stopping point. */
  lemma StopIsUnique(arrivals: seq<Arrival>, maxBytes: nat, stop: nat, stop': nat)
    requires StopsAt(arrivals, maxBytes, stop) && StopsAt(arrivals, maxBytes, stop')
    ensures stop == stop'
  {
    if stop < stop' {
      FitsEarlier(arrivals, maxBytes, stop + 1, stop');
    } else if stop' < stop {
      FitsEarlier(arrivals, maxBytes, stop' + 1, stop);
    }
  }

  lemma {:induction false} FitsEarlier(arrivals: seq<Arrival>, maxBytes: nat, n: nat, m: nat)
    requires n <= m <= |arrivals| && Fits(arrivals, maxBytes, m)
    ensures Fits(arrivals, maxBytes, n)
    decreases m - n
  {
    if n < m {
      FitsEarlier(arrivals, maxBytes, n, m - 1);
    }
  }

  /** `peak` is the longest the buffer ever was. */
  method ReadBodyLimited(declared: Option<nat>, arrivals: seq<Arrival>, maxBytes: nat) returns (body: Body, ghost peak: nat)
    ensures declared.Some? && declared.value > maxBytes ==> body == Err(TooLarge(maxBytes, declared.value)) && peak == 0
    ensures declared.None? || declared.value <= maxBytes ==>
              exists stop :: StopsAt(arrivals, maxBytes, stop) && body == Outcome(arrivals, maxBytes, stop)
    ensures peak <= maxBytes
  {
    peak := 0;
    if declared.Some? && declared.value > maxBytes {
      return Err(TooLarge(maxBytes, declared.value)), peak;
    }
    var buffer, next := [], 0;
    while next < |arrivals|
      invariant next <= |arrivals|
      invariant Fits(arrivals, maxBytes, next) && buffer == Received(arrivals, next)
      invariant peak == |buffer|
    {
      match arrivals[next] {
        case Broken =>
          assert StopsAt(arrivals, maxBytes, next);
          return Err(Transport), peak;
        case Expired =>
          assert StopsAt(arrivals, maxBytes, next);
          return Err(TimedOut), peak;
        case Chunk(bytes) =>
          var received := |buffer| + |bytes|;
          if received > maxBytes {
            assert StopsAt(arrivals, maxBytes, next);
            return Err(TooLarge(maxBytes, received)), peak;
          }
          buffer := buffer + bytes;
          peak := |buffer|;
      }
      next := next + 1;
    }
    assert StopsAt(arrivals, maxBytes, next);
    body := Ok(buffer);
  }

  // ---------- the bytes received ----------

  lemma {:induction false} ReceivedOfConcat(first: seq<Arrival>, second: seq<Arrival>)
    ensures Received(first + second, |first| + |second|) == Received(first, |first|) + Received(second, |second|)
    decreases |second|
  {
    if second == [] {
      assert first + second == first;
    } else {
      var shorter := second[..|second| - 1];
      ReceivedOfConcat(first, shorter);
      ReceivedOfPrefix(first + second, first + shorter, |first| + |shorter|);
      ReceivedOfPrefix(second, shorter, |shorter|);
    }
  }

  lemma {:induction false} ReceivedOfPrefix(arrivals: seq<Arrival>, arrivals': seq<Arrival>, n: nat)
    requires n <= |arrivals| && n <= |arrivals'| && arrivals[..n] == arrivals'[..n]
    ensures Received(arrivals, n) == Received(arrivals', n)
  {
    if n > 0 {
      assert arrivals[n - 1] == arrivals[..n][n - 1] == arrivals'[n - 1];
      assert arrivals[..n - 1] == arrivals[..n][..n - 1] == arrivals'[..n - 1];
      ReceivedOfPrefix(arrivals, arrivals', n - 1);
    }
  }

  /** The bytes of all chunks, first to last. */
  ghost function Joined(chunks: seq<seq<Byte>>): seq<Byte> {
    if chunks == [] then [] else chunks[0] + Joined(chunks[1..])
  }

  /** Chunks received in full are their bytes one after the other. */
  lemma {:induction false} ReceivedIsJoined(arrivals: seq<Arrival>, chunks: seq<seq<Byte>>)
    requires |arrivals| == |chunks| && forall i | 0 <= i < |chunks| :: arrivals[i] == Chunk(chunks[i])
    ensures Received(arrivals, |arrivals|) == Joined(chunks)
    decreases |chunks|
  {
    hide Received;
    if chunks == [] {
      ReceivedOfOne([]);
    } else {
      ReceivedIsJoined(arrivals[1..], chunks[1..]);
      assert arrivals == [arrivals[0]] + arrivals[1..];
      ReceivedOfConcat([arrivals[0]], arrivals[1..]);
      ReceivedOfOne(chunks[0]);
    }
  }

  lemma ReceivedOfOne(bytes: seq<Byte>)
    ensures Received([], 0) == [] && Received([Chunk(bytes)], 1) == bytes
  {
    assert Received([Chunk(bytes)], 0) == [];
  }

  /** Told from the chunks: they are handed out whole if they fit together, and otherwise the first that does not is reported. */
  lemma OutcomeOfChunks(arrivals: seq<Arrival>, chunks: seq<seq<Byte>>, maxBytes: nat, stop: nat)
    requires |arrivals| == |chunks| && forall i | 0 <= i < |chunks| :: arrivals[i] == Chunk(chunks[i])
    requires StopsAt(arrivals, maxBytes, stop)
    ensures |Joined(chunks)| <= maxBytes ==> Outcome(arrivals, maxBytes, stop) == Ok(Joined(chunks))
    ensures |Joined(chunks)| > maxBytes ==>
              && stop < |chunks| && |Joined(chunks[..stop])| <= maxBytes < |Joined(chunks[..stop + 1])|
              && Outcome(arrivals, maxBytes, stop) == Err(TooLarge(maxBytes, |Joined(chunks[..stop + 1])|))
  {
    hide Received, Joined;
    ReceivedIsJoined(arrivals, chunks);
    if |Joined(chunks)| <= maxBytes {
      StopIsUnique(arrivals, maxBytes, stop, |arrivals|);
    } else {
      ReceivedUpTo(arrivals, chunks, stop);
      ReceivedUpTo(arrivals, chunks, stop + 1);
    }
  }

  lemma ReceivedUpTo(arrivals: seq<Arrival>, chunks: seq<seq<Byte>>, n: nat)
    requires |arrivals| == |chunks| && forall i | 0 <= i < |chunks| :: arrivals[i] == Chunk(chunks[i])
    requires n <= |arrivals|
    ensures Received(arrivals, n) == Joined(chunks[..n])
  {
    ReceivedIsJoined(arrivals[..n], chunks[..n]);
    ReceivedOfPrefix(arrivals, arrivals[..n], n);
  }

  /** A transport that breaks or takes too long before anything else goes wrong is reported as such. */
  lemma OutcomeOfFailure(arrivals: seq<Arrival>, maxBytes: nat, stop: nat)
    requires StopsAt(arrivals, maxBytes, stop) && stop < |arrivals|
    ensures arrivals[stop] == Broken ==> Outcome(arrivals, maxBytes, stop) == Err(Transport)
    ensures arrivals[stop] == Expired ==> Outcome(arrivals, maxBytes, stop) == Err(TimedOut)
  {
  }
}
