/**
 * The Seeker of the Avro reader: a resumable Knuth-Morris-Pratt matcher that looks for a
 * marker in a byte stream delivered in separately sized buffers. The only state carried
 * from one `Find` call to the next is the length of the matched prefix of the marker.
 */
module AvroReader {
  import opened MarkerSpec
  import opened PushbackStreams

  /**
   * One step of the matching automaton. From `j`, a matched prefix of `p` after the bytes `s`,
   * falls back through the failure function `f` until `c` extends the match or nothing is left.
   * The result is the longest prefix of `p`, at most `lim` long, that ends `s + [c]`, provided
   * no prefix between `j` and `lim` would have been extended by `c`.
   */
  method NextState(p: seq<bv8>, f: seq<nat>, j: nat, c: bv8, ghost s: seq<bv8>, ghost lim: nat) returns (n: nat)
    requires j < lim == |f|
    requires IsBorderTable(p, f)
    requires Suffixed(s, p, j) && NoExtensionAbove(p, s, c, j, lim)
    ensures n <= lim && Suffixed(s + [c], p, n)
    ensures forall b :: n < b <= lim ==> !Suffixed(s + [c], p, b)
  {
    n := j;
    while n > 0 && c != p[n]
      invariant n < lim
      invariant Suffixed(s, p, n)
      invariant NoExtensionAbove(p, s, c, n, lim)
      decreases n
    {
      FallbackStep(p, f, s, c, n, lim);
      n := f[n - 1];
    }
    StepLongest(p, s, c, n, lim);
    if c == p[n] {
      n := n + 1;
    }
  }

  /**
   * Builds the failure function of `pattern`: entry `i` is the length of the longest proper
   * prefix of `pattern[..i + 1]` that is also a suffix of it.
   */
  method FailureFunction(pattern: seq<bv8>) returns (f: array<nat>)
    requires |pattern| > 0
    ensures IsFailureTable(pattern, f[..])
  {
    f := new nat[|pattern|](_ => 0);
    assert pattern[..1][1..] == [] == pattern[..0];
    assert f[..1] == [] + [0];
    BorderTableSnoc(pattern, [], 0);
    var j: nat := 0;
    var i := 1;
    while i < |pattern|
      invariant 1 <= i <= |pattern| && f.Length == |pattern|
      invariant IsBorderTable(pattern, f[..i])
      invariant j == f[i - 1]
    {
      ghost var done := f[..i];
      j := NextState(pattern, f[..i], j, pattern[i], pattern[..i], i);
      assert pattern[..i] + [pattern[i]] == pattern[..i + 1];
      BorderTableSnoc(pattern, done, j);
      f[i] := j;
      assert f[..i + 1] == done + [j];
      i := i + 1;
    }
    assert f[..] == f[..i];
  }

  class Seeker {
    /** The marker being searched for. */
    const pattern: seq<bv8>
    /** Its failure function, computed once at construction and never written again. */
    const failure: seq<nat>
    /** Length of the prefix of `pattern` matched by the bytes examined since the last match. */
    var state: nat
    /** The bytes examined since construction or since the last reported match. */
    ghost var consumed: seq<bv8>

    /**
     * The automaton invariant: `state` is the longest prefix of the marker that is a suffix of
     * `consumed`, and the marker does not occur in `consumed`.
     */
    ghost predicate Valid()
      reads this
    {
      |pattern| > 0 &&
      IsFailureTable(pattern, failure) &&
      IsLongestMatch(pattern, consumed, state) &&
      NoOccurrence(pattern, consumed)
    }

    constructor (pattern: seq<bv8>)
      requires |pattern| > 0
      ensures Valid()
      ensures this.pattern == pattern && state == 0 && consumed == []
    {
      var table := FailureFunction(pattern);
      this.pattern := pattern;
      failure := table[..];
      state := 0;
      consumed := [];
      EmptyStart(pattern);
    }

    /**
     * Examines `buffer[..length]` byte by byte. Returns the index of the last byte of the first
     * completed match and starts afresh, or returns -1 and keeps the partial match.
     */
    method Find(buffer: array<bv8>, length: int) returns (r: int)
      requires Valid()
      requires length <= buffer.Length
      modifies this
      ensures Valid()
      ensures r == -1 || 0 <= r < length
      ensures var examined := old(consumed) + buffer[..if length < 0 then 0 else length];
        if r == -1 then consumed == examined && NoOccurrence(pattern, examined)
        else consumed == [] && state == 0 && FirstEndsAt(pattern, examined, |old(consumed)| + r + 1)
    {
      ghost var data := buffer[..if length < 0 then 0 else length];
      var i := 0;
      while i < length
        invariant 0 <= i && (i <= length || i == 0) && i <= |data|
        invariant Valid()
        invariant consumed == old(consumed) + data[..i]
      {
        var c := buffer[i];
        assert c == data[i] && data[..i + 1] == data[..i] + [c];
        ghost var s := consumed;
        var j := NextState(pattern, failure, state, c, s, |pattern|);
        if j == |pattern| {
          CompletedAt(pattern, old(consumed), data, i);
          EmptyStart(pattern);
          state := 0;
          consumed := [];
          return i;
        }
        NoOccurrenceExtend(pattern, s, c);
        state := j;
        consumed := s + [c];
        i := i + 1;
      }
      r := -1;
    }
  }

  /** Reading `n` more bytes after the first `consumed` of `input`. */
  lemma SplitAt(input: seq<bv8>, consumed: nat, n: nat)
    requires consumed + n <= |input|
    ensures input[consumed..][n..] == input[consumed + n..]
    ensures input[..consumed] + input[consumed..][..n] == input[..consumed + n]
  {
  }

  /**
   * The marker completed at index `r` of the chunk read after the first `before` bytes of
   * `input`: that is its first occurrence in all of `input`, and the bytes of the chunk after
   * it, pushed back, put the stream right after the marker.
   */
  lemma ChunkMatched(p: seq<bv8>, input: seq<bv8>, before: nat, chunk: seq<bv8>, r: int)
    requires before + |chunk| <= |input| && chunk == input[before..before + |chunk|]
    requires 0 <= r < |chunk|
    requires FirstEndsAt(p, input[..before] + chunk, before + r + 1)
    ensures FirstEndsAt(p, input, before + r + 1)
    ensures chunk[r + 1..] + input[before + |chunk|..] == input[before + r + 1..]
  {
    var read := before + |chunk|;
    assert input[..before] + chunk == input[..read];
    FirstEndsAtLonger(p, input, read, before + r + 1);
    assert chunk[r + 1..] == input[before + r + 1..read];
  }

  /**
   * The marker ended at index `markerEnd` of the `readBytes` bytes just read into `buffer` after
   * the first `before` bytes of `input`: hands the bytes read beyond it back to `stream`, which
   * then resumes right after the first occurrence of the marker in `input`.
   */
  method PushBackAfterMarker(stream: PushbackStream, buffer: array<bv8>, ghost p: seq<bv8>,
                             ghost input: seq<bv8>, before: nat, readBytes: nat, markerEnd: nat)
    returns (next: nat)
    requires stream.Valid() && stream.pushed + readBytes <= stream.capacity
    requires markerEnd < readBytes <= buffer.Length && before + readBytes <= |input|
    requires buffer[..readBytes] == input[before..before + readBytes]
    requires stream.rest == input[before + readBytes..]
    requires FirstEndsAt(p, input[..before] + buffer[..readBytes], before + markerEnd + 1)
    modifies stream
    ensures stream.Valid() && next == before + markerEnd + 1
    ensures FirstEndsAt(p, input, next) && stream.rest == input[next..]
  {
    ghost var chunk := buffer[..readBytes];
    ghost var after := stream.rest;
    ChunkMatched(p, input, before, chunk, markerEnd);
    ghost var tail := buffer[markerEnd + 1..readBytes];
    assert tail == chunk[markerEnd + 1..];
    stream.Unread(buffer, markerEnd + 1, readBytes - markerEnd - 1);
    assert stream.rest == tail + after;
    next := before + markerEnd + 1;
  }

  /**
   * One round of the scan: reads at most one marker-sized buffer after the first `consumed`
   * bytes of `input` and looks for the marker in it. Returns the new number of bytes consumed
   * and whether the scan is over, either because the marker ended in this buffer (the bytes read
   * beyond it are pushed back) or because the stream was already exhausted.
   */
  method ScanChunk(stream: PushbackStream, seeker: Seeker, syncBuffer: array<bv8>,
                   ghost input: seq<bv8>, consumed: nat)
    returns (next: nat, done: bool)
    requires stream.Valid() && seeker.Valid()
    requires syncBuffer.Length == |seeker.pattern| <= stream.capacity
    requires consumed <= |input| && stream.rest == input[consumed..]
    requires seeker.consumed == input[..consumed]
    modifies stream, seeker, syncBuffer
    ensures stream.Valid() && seeker.Valid()
    ensures consumed <= next <= |input| && stream.rest == input[next..]
    ensures done ==> (FirstEndsAt(seeker.pattern, input, next) ||
      (next == |input| && NoOccurrence(seeker.pattern, input)))
    ensures !done ==> consumed < next && seeker.consumed == input[..next]
  {
    var readBytes := stream.Read(syncBuffer);
    if readBytes == -1 {
      assert consumed == |input| && input[..consumed] == input;
      assert NoOccurrence(seeker.pattern, input);
      return consumed, true;
    }
    ghost var chunk := syncBuffer[..readBytes];
    ghost var after := stream.rest;
    SplitAt(input, consumed, readBytes);
    assert chunk == input[consumed..consumed + readBytes] && after == input[consumed + readBytes..];
    assert stream.pushed + readBytes <= stream.capacity;
    var markerEnd := seeker.Find(syncBuffer, readBytes);
    assert syncBuffer[..readBytes] == chunk;
    if markerEnd > -1 {
      next := PushBackAfterMarker(stream, syncBuffer, seeker.pattern, input, consumed, readBytes, markerEnd);
      return next, true;
    }
    assert seeker.consumed == input[..consumed + readBytes];
    return consumed + readBytes, false;
  }

  /**
   * Advances `stream` past the next occurrence of `syncMarker`, reading it one marker-sized
   * buffer at a time and pushing back whatever was read beyond the marker. Returns the number
   * of bytes consumed: up to the end of the first occurrence, or everything when there is none.
   */
  method AdvancePastNextSyncMarker(stream: PushbackStream, syncMarker: seq<bv8>) returns (consumed: int)
    requires stream.Valid()
    requires 0 < |syncMarker| <= stream.capacity
    modifies stream
    ensures stream.Valid()
    ensures FirstEndsAt(syncMarker, old(stream.rest), consumed) ||
      (consumed == |old(stream.rest)| && NoOccurrence(syncMarker, old(stream.rest)))
    ensures 0 <= consumed <= |old(stream.rest)| && stream.rest == old(stream.rest)[consumed..]
  {
    ghost var input := stream.rest;
    var seeker := new Seeker(syncMarker);
    var syncBuffer := new bv8[|syncMarker|];
    var scanned: nat := 0;
    var done := false;
    while !done
      invariant stream.Valid() && seeker.Valid() && seeker.pattern == syncMarker
      invariant syncBuffer.Length == |syncMarker|
      invariant scanned <= |input| && stream.rest == input[scanned..]
      invariant done ==> (FirstEndsAt(syncMarker, input, scanned) ||
        (scanned == |input| && NoOccurrence(syncMarker, input)))
      invariant !done ==> seeker.consumed == input[..scanned]
      decreases |input| - scanned, !done
    {
      scanned, done := ScanChunk(stream, seeker, syncBuffer, input, scanned);
    }
    return scanned;
  }
}
