/** The logger's state and one iteration of its main loop (lines 59-118), with
    the serial read reduced to a chunk of at most 16 bytes and the plotting
    left out: the receive buffer, the four rolling lists of decoded channel
    values and the sample counter.
 */
module Logger {

  import opened Codec
  import opened Sync

  /** Bytes requested from the serial port per iteration (line 67). */
  const ReadSize: nat := 16
  /** Capacity of each rolling list (line 62). */
  const MaxSamples: nat := 2000

  /** What one loop iteration did. */
  datatype Outcome =
    | Waiting              // no candidate window was examined
    | Discarded            // a candidate window failed the header/trailer check
    | Accepted(sample: Sample)
    | Raised               // packing a field raised an error, which ends the loop

  datatype Channel = A | B | C | D

  function Get(s: Sample, ch: Channel): int {
    match ch
    case A => s.a
    case B => s.b
    case C => s.c
    case D => s.d
  }

  /** The values of one channel along a sequence of samples. */
  function Column(h: seq<Sample>, ch: Channel): (r: seq<int>)
    ensures |r| == |h|
  {
    if h == [] then [] else Column(h[..|h| - 1], ch) + [Get(h[|h| - 1], ch)]
  }

  /** Entry `k` of a column is channel `ch` of sample `k`. */
  lemma {:induction false} ColumnAt(h: seq<Sample>, ch: Channel, k: nat)
    requires k < |h|
    ensures Column(h, ch)[k] == Get(h[k], ch)
  {
    if k < |h| - 1 {
      ColumnAt(h[..|h| - 1], ch, k);
    }
  }

  /** The newest `n` elements of `s`, or all of `s` when it is shorter.  For
      `n > 0` this is Python's `s[-n:]`; the model only uses `n == 2000`. */
  function Newest<T>(s: seq<T>, n: nat): (r: seq<T>)
    ensures |r| == if |s| < n then |s| else n
    ensures r == s[|s| - |r|..]
  {
    if |s| > n then s[|s| - n..] else s
  }

  /** Lines 80-92 for one list: append, then keep the newest 2000 entries. */
  function Push(list: seq<int>, x: int): (r: seq<int>)
    ensures |r| == if |list| < MaxSamples then |list| + 1 else MaxSamples
    ensures r[|r| - 1] == x
    ensures r[..|r| - 1] == list[|list| - (|r| - 1)..]
  {
    Newest(list + [x], MaxSamples)
  }

  /** Keeping the newest `n` before appending changes nothing once the newest
      `n` are kept again afterwards. */
  lemma NewestSnoc<T>(s: seq<T>, x: T, n: nat)
    ensures Newest(s + [x], n) == Newest(Newest(s, n) + [x], n)
  {
    if |s| > n > 0 {
      var t := Newest(s, n);
      assert (s + [x])[|s| + 1 - n..] == s[|s| + 1 - n..] + [x];
      assert (t + [x])[1..] == t[1..] + [x];
      assert t[1..] == s[|s| + 1 - n..];
    }
  }

  lemma ColumnSnoc(h: seq<Sample>, x: Sample, ch: Channel)
    ensures Column(h + [x], ch) == Column(h, ch) + [Get(x, ch)]
  {
    assert (h + [x])[..|h|] == h;
  }

  /** Taking a channel commutes with keeping the newest `n` samples. */
  lemma ColumnNewest(h: seq<Sample>, n: nat, ch: Channel)
    ensures Column(Newest(h, n), ch) == Newest(Column(h, ch), n)
  {
    var l, r := Column(Newest(h, n), ch), Newest(Column(h, ch), n);
    var off := |h| - |l|;
    forall k | 0 <= k < |l|
      ensures l[k] == r[k]
    {
      ColumnAt(Newest(h, n), ch, k);
      ColumnAt(h, ch, off + k);
    }
  }

  /** Appending a sample to the history and pushing its value onto a rolling
      list agree: the list keeps being the newest 2000 values of the channel. */
  lemma PushKeepsNewest(h: seq<Sample>, x: Sample, ch: Channel)
    ensures Column(Newest(h + [x], MaxSamples), ch)
         == Push(Column(Newest(h, MaxSamples), ch), Get(x, ch))
  {
    var c := Column(h, ch);
    ColumnNewest(h + [x], MaxSamples, ch);
    ColumnSnoc(h, x, ch);
    ColumnNewest(h, MaxSamples, ch);
    NewestSnoc(c, Get(x, ch), MaxSamples);
  }

  /** The outcome of one iteration on the buffer `buf` as it stands after the
      chunk is appended: only a candidate window is decoded. */
  function Classify(buf: seq<byte>): (o: Outcome)
    ensures o != Waiting <==> Locate(buf).Candidate?
  {
    match Locate(buf)
    case Candidate(s) =>
      (match ParsePacket(buf[s..s + FrameLen])
       case Rejected => Discarded
       case PackError => Raised
       case Decoded(x) => Accepted(x))
    case _ => Waiting
  }

  /** An accepted sample is exactly the one the candidate window encodes, so
      no accepted frame differs from the frame its sample would be sent as. */
  lemma AcceptedIsEncoded(buf: seq<byte>)
    ensures Classify(buf).Accepted? ==>
      var s := Locate(buf).start; Encode(Classify(buf).sample) == buf[s..s + FrameLen]
  {
    if Classify(buf).Accepted? {
      var s := Locate(buf).start;
      EncodeInverts(buf[s..s + FrameLen]);
    }
  }

  /** The samples accepted along a run of iterations, in order. */
  function AcceptedSamples(os: seq<Outcome>): seq<Sample> {
    if os == [] then []
    else AcceptedSamples(os[..|os| - 1])
         + (if os[|os| - 1].Accepted? then [os[|os| - 1].sample] else [])
  }

  /** A history that gained the samples accepted along `os` gains the sample
      of one more accepted outcome at its end, and nothing otherwise. */
  lemma AcceptedSamplesSnoc(h: seq<Sample>, os: seq<Outcome>, o: Outcome)
    ensures h + AcceptedSamples(os + [o])
         == h + AcceptedSamples(os) + (if o.Accepted? then [o.sample] else [])
  {
    assert (os + [o])[..|os|] == os;
  }

  /** The main loop over the reads `chunks`, starting from the buffer `buf`:
      the outcome of every iteration and the buffer it leaves.  Each read is
      appended and classified; the buffer then resyncs, or stays as appended
      when decoding raised, and a raise ends the loop (lines 64-126). */
  function Feed(buf: seq<byte>, chunks: seq<seq<byte>>): (r: (seq<Outcome>, seq<byte>))
    ensures |r.0| <= |chunks|
    ensures forall i :: 0 <= i < |r.0| - 1 ==> r.0[i] != Raised
    ensures |r.0| < |chunks| ==> r.0 != [] && r.0[|r.0| - 1] == Raised
  {
    if chunks == [] then ([], buf)
    else
      var prev := Feed(buf, chunks[..|chunks| - 1]);
      if Raised in prev.0 then prev
      else
        var appended := prev.1 + chunks[|chunks| - 1];
        var o := Classify(appended);
        (prev.0 + [o], if o == Raised then appended else Resync(appended))
  }

  /** One more read, when the loop has not ended: it is appended to the buffer
      left so far and classified, and the buffer resyncs unless decoding raised. */
  lemma FeedNext(buf: seq<byte>, chunks: seq<seq<byte>>, i: nat)
    requires i < |chunks| && Raised !in Feed(buf, chunks[..i]).0
    ensures var prev := Feed(buf, chunks[..i]);
      var appended := prev.1 + chunks[i];
      Feed(buf, chunks[..i + 1])
        == (prev.0 + [Classify(appended)],
            if Classify(appended) == Raised then appended else Resync(appended))
  {
    assert chunks[..i + 1][..i] == chunks[..i];
  }

  /** Reads after a raise change nothing: the loop has already ended. */
  lemma {:induction false} FeedStops(buf: seq<byte>, chunks: seq<seq<byte>>, k: nat)
    requires k <= |chunks| && Raised in Feed(buf, chunks[..k]).0
    ensures Feed(buf, chunks) == Feed(buf, chunks[..k])
    decreases |chunks|
  {
    if k == |chunks| {
      assert chunks[..k] == chunks;
    } else {
      var init := chunks[..|chunks| - 1];
      assert init[..k] == chunks[..k];
      FeedStops(buf, init, k);
    }
  }

  class VcpLogger {
    var buffer: seq<byte>
    var dataA: seq<int>
    var dataB: seq<int>
    var dataC: seq<int>
    var dataD: seq<int>
    var sampleCounter: nat
    /** Every sample accepted so far, oldest first. */
    ghost var history: seq<Sample>

    /** The counter counts the accepted samples and each rolling list holds
        its channel of the newest 2000 of them. */
    ghost predicate Valid()
      reads this
    {
      sampleCounter == |history| &&
      dataA == Column(Newest(history, MaxSamples), A) &&
      dataB == Column(Newest(history, MaxSamples), B) &&
      dataC == Column(Newest(history, MaxSamples), C) &&
      dataD == Column(Newest(history, MaxSamples), D)
    }

    /** Lines 10-13 and 59-61: empty buffer, empty lists, counter zero. */
    constructor ()
      ensures Valid()
      ensures buffer == [] && history == []
    {
      buffer := [];
      dataA, dataB, dataC, dataD := [], [], [], [];
      sampleCounter := 0;
      history := [];
    }

    /** The four lists have the same length, at most 2000. */
    lemma ListsBounded()
      requires Valid()
      ensures |dataA| == |dataB| == |dataC| == |dataD| <= MaxSamples
      ensures |dataA| == if sampleCounter < MaxSamples then sampleCounter else MaxSamples
    {
    }

    /** Lines 80-92: an accepted sample is appended to the four rolling lists,
        which keep their newest 2000 entries, and the counter goes up by one. */
    method Record(x: Sample)
      requires Valid()
      modifies this
      ensures Valid()
      ensures buffer == old(buffer)
      ensures history == old(history) + [x]
      ensures sampleCounter == old(sampleCounter) + 1
      ensures dataA == Push(old(dataA), x.a) && dataB == Push(old(dataB), x.b)
      ensures dataC == Push(old(dataC), x.c) && dataD == Push(old(dataD), x.d)
    {
      ghost var h := history + [x];
      PushKeepsNewest(history, x, A);
      PushKeepsNewest(history, x, B);
      PushKeepsNewest(history, x, C);
      PushKeepsNewest(history, x, D);
      dataA, dataB := Push(dataA, x.a), Push(dataB, x.b);
      dataC, dataD := Push(dataC, x.c), Push(dataD, x.d);
      sampleCounter := sampleCounter + 1;
      history := h;
    }

    /** Lines 73-115: decode the candidate window at `start` and drop the
        buffer through its end, whether it was accepted or not; the buffer
        is left alone when decoding raises. */
    method TakeCandidate(start: nat) returns (outcome: Outcome)
      requires Valid() && Locate(buffer) == Candidate(start)
      modifies this
      ensures Valid()
      ensures outcome == Classify(old(buffer)) && outcome != Waiting
      ensures buffer == if outcome == Raised then old(buffer) else old(buffer)[start + FrameLen..]
      ensures history == old(history) + (if outcome.Accepted? then [outcome.sample] else [])
      ensures sampleCounter == old(sampleCounter) + (if outcome.Accepted? then 1 else 0)
      ensures outcome.Accepted? ==>
        dataA == Push(old(dataA), outcome.sample.a) && dataB == Push(old(dataB), outcome.sample.b) &&
        dataC == Push(old(dataC), outcome.sample.c) && dataD == Push(old(dataD), outcome.sample.d)
      ensures !outcome.Accepted? ==>
        dataA == old(dataA) && dataB == old(dataB) && dataC == old(dataC) && dataD == old(dataD)
    {
      var packet := buffer[start..start + FrameLen];
      var result := ParsePacket(packet);
      if result == PackError {
        return Raised;
      }
      if result.Decoded? {
        Record(result.sample);
        outcome := Accepted(result.sample);
      } else {
        outcome := Discarded;
      }
      buffer := buffer[start + FrameLen..];
    }

    /** One iteration of the main loop (lines 67-118) with `chunk` as what the
        serial read returned. */
    method Step(chunk: seq<byte>) returns (outcome: Outcome)
      requires Valid() && |chunk| <= ReadSize
      modifies this
      ensures Valid()
      ensures outcome == Classify(old(buffer) + chunk)
      ensures outcome != Raised ==> buffer == Resync(old(buffer) + chunk)
      ensures outcome == Raised ==> buffer == old(buffer) + chunk
      ensures old(|buffer|) <= ReadSize && outcome != Raised ==> |buffer| <= ReadSize
      ensures history == old(history) + (if outcome.Accepted? then [outcome.sample] else [])
      ensures sampleCounter == old(sampleCounter) + (if outcome.Accepted? then 1 else 0)
      ensures outcome.Accepted? ==>
        dataA == Push(old(dataA), outcome.sample.a) && dataB == Push(old(dataB), outcome.sample.b) &&
        dataC == Push(old(dataC), outcome.sample.c) && dataD == Push(old(dataD), outcome.sample.d)
      ensures !outcome.Accepted? ==>
        dataA == old(dataA) && dataB == old(dataB) && dataC == old(dataC) && dataD == old(dataD)
    {
      buffer := buffer + chunk;
      ghost var buf := buffer;
      outcome := Waiting;
      if |buffer| >= FrameLen {
        var startIdx := FindPacketStart(buffer);
        if startIdx != -1 && |buffer| >= startIdx + FrameLen {
          assert Locate(buf) == Candidate(startIdx);
          outcome := TakeCandidate(startIdx);
        } else {
          assert Locate(buf) == Trim;
          buffer := buffer[|buffer| - FrameLen..];
        }
      } else {
        assert Locate(buf) == Short;
      }
    }

    /** Read `i` of the stream, one step of the fold `Feed` from `buf0`: the
        outcome and the buffer extend those of the reads before it. */
    method Advance(chunks: seq<seq<byte>>, i: nat, ghost buf0: seq<byte>) returns (o: Outcome)
      requires Valid() && i < |chunks| && |chunks[i]| <= ReadSize && |buffer| <= ReadSize
      requires Raised !in Feed(buf0, chunks[..i]).0 && buffer == Feed(buf0, chunks[..i]).1
      modifies this
      ensures Valid()
      ensures Feed(buf0, chunks[..i + 1]) == (Feed(buf0, chunks[..i]).0 + [o], buffer)
      ensures o != Raised ==> |buffer| <= ReadSize
      ensures history == old(history) + (if o.Accepted? then [o.sample] else [])
    {
      FeedNext(buf0, chunks, i);
      o := Step(chunks[i]);
    }

    /** The main loop over a finite sequence of serial reads, stopped early
        when decoding raises. */
    method Run(chunks: seq<seq<byte>>) returns (outcomes: seq<Outcome>)
      requires Valid() && |buffer| <= ReadSize
      requires forall i :: 0 <= i < |chunks| ==> |chunks[i]| <= ReadSize
      modifies this
      ensures Valid()
      ensures (outcomes, buffer) == Feed(old(buffer), chunks)
      ensures Raised !in outcomes ==> |buffer| <= ReadSize
      ensures history == old(history) + AcceptedSamples(outcomes)
      ensures sampleCounter == old(sampleCounter) + |AcceptedSamples(outcomes)|
    {
      outcomes := [];
      var i := 0;
      while i < |chunks|
        invariant 0 <= i <= |chunks| && |outcomes| == i
        invariant Valid()
        invariant outcomes == Feed(old(buffer), chunks[..i]).0
        invariant buffer == Feed(old(buffer), chunks[..i]).1
        invariant Raised !in outcomes
        invariant |buffer| <= ReadSize
        invariant history == old(history) + AcceptedSamples(outcomes)
      {
        var o := Advance(chunks, i, old(buffer));
        AcceptedSamplesSnoc(old(history), outcomes, o);
        outcomes := outcomes + [o];
        if o == Raised {
          FeedStops(old(buffer), chunks, i + 1);
          return;
        }
        i := i + 1;
      }
      assert chunks[..i] == chunks;
    }
  }

  /** A frame preceded by bytes that hold no sync word is the candidate of the
      buffer: it is accepted with exactly the sample it carries, and only the
      bytes after it stay buffered.  A trailing `DE` in the garbage does not
      pair with the frame's own `DE`.  For the stream `FF FF` + frame
      {1, 2, 3, 4} + `AA`, this is one sample {1, 2, 3, 4} with `AA` left over. */
  lemma EmbeddedFrame(garbage: seq<byte>, s: Sample, rest: seq<byte>)
    requires NoMarkerIn(garbage, 0, |garbage|)
    requires InRange20(s.a) && InRange20(s.b) && InRange20(s.c) && InRange20(s.d)
    ensures Classify(garbage + Encode(s) + rest) == Accepted(s)
    ensures Resync(garbage + Encode(s) + rest) == rest
  {
    var frame := Encode(s);
    var buf := garbage + frame + rest;
    var g := |garbage|;
    assert buf[g..g + FrameLen] == frame;
    assert MarkerAt(buf, g);
    forall j | 0 <= j < g
      ensures !MarkerAt(buf, j)
    {
      if j < g - 1 {
        assert !MarkerAt(garbage, j);
      } else {
        assert buf[j + 1] == 0xDE;
      }
    }
    FirstMarkerIsLeast(buf, g);
    assert Locate(buf) == Candidate(g);
    RoundTrip(s);
    assert buf[g + FrameLen..] == rest;
  }
}
