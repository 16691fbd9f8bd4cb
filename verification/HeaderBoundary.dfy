/** The incremental scan for the end of an HTTP response header. */
module HeaderBoundary {
  import opened Bytes

  const LF: byte := 10
  const CR: byte := 13

  /** Where the line containing position `i` starts. */
  function LineStart(bytes: seq<byte>, i: nat): (r: nat)
    requires i <= |bytes|
    ensures r <= i
  {
    if i == 0 then 0 else if bytes[i - 1] == LF then i else LineStart(bytes, i - 1)
  }

  /** Position `i` ends a line that is empty or a lone carriage return. */
  predicate EndsBlankLine(bytes: seq<byte>, i: nat) {
    i < |bytes| && bytes[i] == LF && (bytes[LineStart(bytes, i)..i] == [] || bytes[LineStart(bytes, i)..i] == [CR])
  }

  predicate EndsTextLine(bytes: seq<byte>, i: nat) {
    i < |bytes| && bytes[i] == LF && !EndsBlankLine(bytes, i)
  }

  predicate TextLineBefore(bytes: seq<byte>, k: nat) {
    exists i :: 0 <= i < k && EndsTextLine(bytes, i)
  }

  /** The header ends just before `e`: at a blank line that follows some line with text. */
  predicate EndsHeader(bytes: seq<byte>, e: nat) {
    e > 0 && EndsBlankLine(bytes, e - 1) && TextLineBefore(bytes, e - 1)
  }

  /** The one-shot answer: the first place where the header ends. */
  predicate IsBoundary(bytes: seq<byte>, r: Option<nat>) {
    match r
    case None => forall e :: 0 < e <= |bytes| ==> !EndsHeader(bytes, e)
    case Some(b) => EndsHeader(bytes, b) && forall e :: 0 < e < b ==> !EndsHeader(bytes, e)
  }

  /** Lines that are complete do not change when more bytes arrive. */
  lemma {:induction false} LineStartStable(bytes: seq<byte>, more: seq<byte>, i: nat)
    requires i <= |bytes|
    ensures LineStart(bytes + more, i) == LineStart(bytes, i)
  {
    if i != 0 {
      LineStartStable(bytes, more, i - 1);
    }
  }

  lemma LinesStable(bytes: seq<byte>, more: seq<byte>, i: nat)
    requires i < |bytes|
    ensures EndsBlankLine(bytes + more, i) == EndsBlankLine(bytes, i)
    ensures EndsTextLine(bytes + more, i) == EndsTextLine(bytes, i)
  {
    LineStartStable(bytes, more, i);
    var start := LineStart(bytes, i);
    assert (bytes + more)[start..i] == bytes[start..i];
  }

  lemma HeaderEndStable(bytes: seq<byte>, more: seq<byte>, e: nat)
    requires e <= |bytes|
    ensures EndsHeader(bytes + more, e) == EndsHeader(bytes, e)
    ensures TextLineBefore(bytes + more, e) == TextLineBefore(bytes, e)
  {
    forall i | 0 <= i < e
      ensures EndsBlankLine(bytes + more, i) == EndsBlankLine(bytes, i)
      ensures EndsTextLine(bytes + more, i) == EndsTextLine(bytes, i)
    {
      LinesStable(bytes, more, i);
    }
  }

  /** A boundary once found is the boundary of every longer input. */
  lemma BoundaryStable(bytes: seq<byte>, more: seq<byte>, b: nat)
    requires b <= |bytes| && IsBoundary(bytes, Some(b))
    ensures IsBoundary(bytes + more, Some(b))
  {
    forall e | 0 < e <= b
      ensures EndsHeader(bytes + more, e) == EndsHeader(bytes, e)
    {
      HeaderEndStable(bytes, more, e);
    }
  }

  class Scanner {
    var scanned: nat
    var lineStart: nat
    var sawStatusLine: bool
    /** How many byte positions have been looked at. */
    ghost var visits: nat

    constructor ()
      ensures ReadyFor([]) && visits == 0 && scanned == 0
    {
      scanned, lineStart, sawStatusLine, visits := 0, 0, false, 0;
    }

    /** The scanner has taken in a prefix of `bytes` that holds no boundary. */
    ghost predicate ReadyFor(bytes: seq<byte>)
      reads this
    {
      && scanned <= |bytes| && visits == scanned
      && lineStart == LineStart(bytes, scanned)
      && sawStatusLine == TextLineBefore(bytes, scanned)
      && forall e :: 0 < e <= scanned ==> !EndsHeader(bytes, e)
    }

    method Find(bytes: seq<byte>) returns (r: Option<nat>)
      requires ReadyFor(bytes)
      modifies this
      ensures IsBoundary(bytes, r)
      ensures visits == scanned == if r.Some? then r.value else |bytes|
      ensures r.None? ==> ReadyFor(bytes)
    {
      while scanned < |bytes|
        invariant ReadyFor(bytes)
      {
        var index := scanned;
        scanned, visits := scanned + 1, visits + 1;
        if bytes[index] != LF {
          assert !EndsHeader(bytes, index + 1) && !EndsTextLine(bytes, index);
          continue;
        }
        var line := bytes[lineStart..index];
        lineStart := scanned;
        var empty := line == [] || line == [CR];
        assert empty == EndsBlankLine(bytes, index);
        if empty && sawStatusLine {
          assert EndsHeader(bytes, scanned);
          return Some(scanned);
        }
        sawStatusLine := sawStatusLine || !empty;
        assert !EndsHeader(bytes, scanned);
        assert !empty ==> EndsTextLine(bytes, index);
      }
      return None;
    }
  }

  lemma StillReady(s: Scanner, bytes: seq<byte>, more: seq<byte>)
    requires s.ReadyFor(bytes)
    ensures s.ReadyFor(bytes + more)
  {
    LineStartStable(bytes, more, s.scanned);
    HeaderEndStable(bytes, more, s.scanned);
    forall e | 0 < e <= s.scanned
      ensures !EndsHeader(bytes + more, e)
    {
      HeaderEndStable(bytes, more, e);
    }
  }

  lemma {:induction false} FlattenPrefix(chunks: seq<seq<byte>>, i: nat)
    requires i <= |chunks|
    ensures Flatten(chunks[..i]) <= Flatten(chunks)
  {
    if i == |chunks| {
      assert chunks[..i] == chunks;
    } else {
      var n := |chunks| - 1;
      FlattenPrefix(chunks[..n], i);
      assert chunks[..n][..i] == chunks[..i] && chunks[..n] + [chunks[n]] == chunks;
      FlattenSnoc(chunks[..n], chunks[n]);
    }
  }

  /** The read loop: whatever the chunking, the boundary is that of the whole input, and each byte is looked at once. */
  method ScanChunks(chunks: seq<seq<byte>>) returns (r: Option<nat>, ghost visits: nat)
    ensures IsBoundary(Flatten(chunks), r)
    ensures visits == if r.Some? then r.value else |Flatten(chunks)|
  {
    var scanner := new Scanner();
    var buf: seq<byte> := [];
    r, visits := None, 0;
    for i := 0 to |chunks|
      invariant buf == Flatten(chunks[..i]) && scanner.ReadyFor(buf)
      invariant fresh(scanner) && scanner.visits == |buf| && IsBoundary(buf, None)
    {
      StillReady(scanner, buf, chunks[i]);
      assert chunks[..i + 1] == chunks[..i] + [chunks[i]];
      FlattenSnoc(chunks[..i], chunks[i]);
      buf := buf + chunks[i];
      r := scanner.Find(buf);
      if r.Some? {
        FlattenPrefix(chunks, i + 1);
        var whole := Flatten(chunks);
        assert whole == buf + whole[|buf|..];
        BoundaryStable(buf, whole[|buf|..], r.value);
        return r, scanner.visits;
      }
    }
    assert chunks[..|chunks|] == chunks;
    return None, scanner.visits;
  }
}
