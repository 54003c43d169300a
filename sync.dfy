/** Locating frames in the receive buffer: the search for the `DE AD` sync
    word, the choice of the one candidate window a loop iteration examines, and
    what is left of the buffer afterwards (lines 34-42, 67-77 and 114-118).
 */
module Sync {

  import opened Codec

  /** A sync word `DE AD` starts at index `i` of `buf`. */
  predicate MarkerAt(buf: seq<byte>, i: int) {
    0 <= i < |buf| - 1 && buf[i] == 0xDE && buf[i + 1] == 0xAD
  }

  /** No sync word starts at an index in `[lo, hi)`. */
  predicate NoMarkerIn(buf: seq<byte>, lo: int, hi: int) {
    forall j :: lo <= j < hi ==> !MarkerAt(buf, j)
  }

  /** The earliest sync word at or after `i`, or -1 when there is none. */
  function FirstMarkerFrom(buf: seq<byte>, i: nat): (r: int)
    decreases |buf| - i
    ensures r == -1 || (i <= r && MarkerAt(buf, r))
    ensures NoMarkerIn(buf, i, if r == -1 then |buf| else r)
  {
    if i + 1 >= |buf| then -1
    else if MarkerAt(buf, i) then i
    else FirstMarkerFrom(buf, i + 1)
  }

  /** The earliest sync word of the whole buffer, or -1. */
  function FirstMarker(buf: seq<byte>): int {
    FirstMarkerFrom(buf, 0)
  }

  /** `find_packet_start`: scans indices `0 .. len - 2` and returns the first
      one where `DE AD` starts, or -1. */
  method FindPacketStart(buffer: seq<byte>) returns (r: int)
    ensures r == -1 <==> NoMarkerIn(buffer, 0, |buffer|)
    ensures r != -1 ==> 0 <= r <= |buffer| - 2 && MarkerAt(buffer, r) && NoMarkerIn(buffer, 0, r)
    ensures r == FirstMarker(buffer)
  {
    var i := 0;
    while i < |buffer| - 1
      invariant 0 <= i
      invariant NoMarkerIn(buffer, 0, i)
      invariant FirstMarkerFrom(buffer, i) == FirstMarker(buffer)
    {
      if buffer[i] == 0xDE && buffer[i + 1] == 0xAD {
        return i;
      }
      i := i + 1;
    }
    return -1;
  }

  /** What one loop iteration does with the buffer once the chunk is appended:
      examine the window at `start`, trim to the last 16 bytes, or wait. */
  datatype Window = Candidate(start: nat) | Trim | Short

  /** Lines 70-72: with at least 16 bytes buffered, the earliest sync word is
      a candidate when a whole frame follows it; otherwise the buffer is
      trimmed.  Below 16 bytes nothing is examined. */
  function Locate(buf: seq<byte>): (w: Window)
    ensures w == Short <==> |buf| < FrameLen
    ensures w.Candidate? ==>
      w.start + FrameLen <= |buf| && MarkerAt(buf, w.start) && NoMarkerIn(buf, 0, w.start)
    ensures w == Trim ==> NoMarkerIn(buf, 0, |buf| - FrameLen + 1)
  {
    if |buf| < FrameLen then Short
    else
      var s := FirstMarker(buf);
      if s != -1 && |buf| >= s + FrameLen then Candidate(s) else Trim
  }

  /** The buffer a loop iteration leaves behind (unless decoding raised):
      everything through the end of the candidate window is dropped whether
      or not it was accepted (line 115); without a candidate the last 16
      bytes are kept (line 118); below 16 bytes the buffer stays as appended. */
  function Resync(buf: seq<byte>): (r: seq<byte>)
    ensures |r| <= |buf| && r == buf[|buf| - |r|..]
    ensures |buf| <= 2 * FrameLen ==> |r| <= FrameLen
  {
    match Locate(buf)
    case Candidate(s) => buf[s + FrameLen..]
    case Trim => buf[|buf| - FrameLen..]
    case Short => buf
  }

  /** Sync words of a suffix are the sync words of the whole buffer, shifted. */
  lemma MarkerInSuffix(buf: seq<byte>, k: nat, j: int)
    requires k <= |buf|
    ensures MarkerAt(buf[k..], j) <==> 0 <= j && MarkerAt(buf, j + k)
  {
  }

  /** Trimming loses no sync word: the earliest one, whose frame is still
      incomplete, is the earliest one of the trimmed buffer, shifted by the
      number of bytes dropped; a buffer without one stays without one. */
  lemma TrimKeepsMarker(buf: seq<byte>)
    requires Locate(buf) == Trim
    ensures var cut := |buf| - FrameLen;
      FirstMarker(Resync(buf)) == if FirstMarker(buf) == -1 then -1 else FirstMarker(buf) - cut
  {
    var cut := |buf| - FrameLen;
    var t := Resync(buf);
    assert t == buf[cut..];
    var s := FirstMarker(buf);
    forall j | 0 <= j < (if s == -1 then |t| else s - cut)
      ensures !MarkerAt(t, j)
    {
      MarkerInSuffix(buf, cut, j);
    }
    FirstMarkerIsLeast(t, if s == -1 then -1 else s - cut);
  }

  /** The earliest sync word is characterised by having no sync word before it. */
  lemma FirstMarkerIsLeast(buf: seq<byte>, s: int)
    requires s == -1 || MarkerAt(buf, s)
    requires NoMarkerIn(buf, 0, if s == -1 then |buf| else s)
    ensures FirstMarker(buf) == s
  {
  }
}
