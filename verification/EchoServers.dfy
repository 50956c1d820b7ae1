/** client_server/sample_server.cpp: the echo loop and its retry counter, for any sequence of read results. */
module EchoServers {

  type byte = x: int | 0 <= x < 256

  /** A `read` of at most 23 bytes: the bytes it stored, or no byte at all (end of file or an error). */
  datatype ReadResult = Data(bytes: seq<byte>) | Nothing

  const CHUNK := 23
  const RETRIES := 10

  ghost predicate Possible(results: seq<ReadResult>) {
    forall i | 0 <= i < |results| :: results[i].Data? ==> 1 <= |results[i].bytes| <= 23
  }

  /** All bytes received, in order. */
  function Payload(results: seq<ReadResult>): seq<byte> {
    if results == [] then []
    else Payload(results[..|results| - 1]) + match results[|results| - 1] case Data(b) => b case Nothing => []
  }

  /** The bytes received are what each read brought, one after the other. */
  lemma {:induction false} PayloadConcatenates(before: seq<ReadResult>, after: seq<ReadResult>)
    ensures Payload(before + after) == Payload(before) + Payload(after)
    ensures Payload([]) == [] == Payload([Nothing])
    ensures forall b :: Payload([Data(b)]) == b
    decreases |after|
  {
    forall r: ReadResult
      ensures [r][..0] == []
    {
    }
    if after == [] {
      assert before + after == before;
    } else {
      var n := |after| - 1;
      assert (before + after)[..|before| + n] == before + after[..n];
      PayloadConcatenates(before, after[..n]);
    }
  }

  /** The last eleven of the first `k` reads brought nothing. */
  ghost predicate ElevenIdle(results: seq<ReadResult>, k: nat) {
    11 <= k <= |results| && forall i | k - 11 <= i < k :: results[i] == Nothing
  }

  /** `k` is the first point at which eleven reads in a row have brought nothing. */
  ghost predicate StopsAt(results: seq<ReadResult>, k: nat) {
    ElevenIdle(results, k) && forall j | 0 <= j < k :: !ElevenIdle(results, j)
  }

  /** The loop stops exactly there, or has used up `results` and still runs; what it has written is what it
      has received.  `write` is taken to write all it is given. */
  method Serve(results: seq<ReadResult>) returns (written: seq<byte>, used: nat, stopped: bool)
    requires Possible(results)
    ensures used <= |results|
    ensures stopped ==> StopsAt(results, used)
    ensures !stopped ==> used == |results| && forall k: nat :: !ElevenIdle(results, k)
    ensures written == Payload(results[..used])
  {
    var buf := new byte[1024];
    var count := RETRIES;
    written, used, stopped := [], 0, false;
    while used < |results|
      invariant used <= |results| && !stopped
      invariant 0 <= count <= RETRIES && RETRIES - count <= used
      invariant forall i | used - (RETRIES - count) <= i < used :: results[i] == Nothing
      invariant RETRIES - count < used ==> results[used - (RETRIES - count) - 1].Data?
      invariant forall k | 0 <= k <= used :: !ElevenIdle(results, k)
      invariant written == Payload(results[..used])
    {
      for i := 0 to CHUNK {
        buf[i] := 0;
      }
      var result := results[used];
      assert results[..used + 1][..used] == results[..used];
      used := used + 1;
      if result.Data? {
        var n := |result.bytes|;
        for i := 0 to n
          invariant forall k | 0 <= k < i :: buf[k] == result.bytes[k]
        {
          buf[i] := result.bytes[i];
        }
        assert buf[..n] == result.bytes;
        written := written + buf[..n];
        count := RETRIES;
      } else {
        count := count - 1;
        if count < 0 {
          stopped := true;
          break;
        }
      }
    }
  }

  // ----- the stopping point depends on the results alone

  /** What arrives after the loop has stopped changes nothing. */
  lemma LaterReadsDoNotMatter(results: seq<ReadResult>, more: seq<ReadResult>, k: nat)
    requires k <= |results|
    ensures StopsAt(results + more, k) <==> StopsAt(results, k)
  {
    forall j: nat | j <= k
      ensures ElevenIdle(results + more, j) <==> ElevenIdle(results, j)
    {
      if ElevenIdle(results + more, j) {
        assert forall i | j - 11 <= i < j :: results[i] == (results + more)[i];
      }
    }
  }

  /** Eleven idle reads in a row always end the loop, at that point or before. */
  lemma {:induction false} IdleStops(results: seq<ReadResult>, k: nat) returns (stop: nat)
    requires ElevenIdle(results, k)
    ensures stop <= k && StopsAt(results, stop)
    decreases k
  {
    if j: nat :| j < k && ElevenIdle(results, j) {
      stop := IdleStops(results, j);
    } else {
      stop := k;
    }
  }
}
