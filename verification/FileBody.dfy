/** The bytes of a file response: read in one piece, or streamed chunk by chunk. */
module FileBody {
  import opened Basics
  import opened Headers
  import opened Range

  const FILE_CHUNK: nat := 64 * 1024

  /** The bytes of a file at `[start, start + count)`, as far as it has them. */
  function Slice(file: Bytes, start: nat, count: nat): Bytes {
    file[Least(start, |file|)..Least(start + count, |file|)]
  }

  /** `take(count)` after a seek, read to its end. */
  method ReadSpan(file: Bytes, start: nat, count: nat) returns (data: Bytes)
    ensures data == Slice(file, start, count)
    ensures start + count <= |file| ==> |data| == count
  {
    var at := Least(start, |file|);
    var left := file[at..];
    data := left[..Least(count, |left|)];
  }

  lemma AppendChunk(file: Bytes, chunks: seq<Bytes>, from: nat, at: nat, n: nat)
    requires from <= at && at + n <= |file| && Concat(chunks) == file[from..at]
    ensures Concat(chunks + [file[at..at + n]]) == file[from..at + n]
  {
    ConcatSnoc(chunks, file[at..at + n]);
    assert file[from..at] + file[at..at + n] == file[from..at + n];
  }

  /** Streams a span. Each read may give any number of bytes up to what was wanted;
      `clean` says that no read failed and the client stayed. Then the chunks are the
      span, however the reads fell; otherwise they are a prefix of it. */
  method StreamFile(file: Bytes, start: nat, count: nat) returns (chunks: seq<Bytes>, clean: bool)
    ensures Concat(chunks) <= Slice(file, start, count)
    ensures clean ==> Concat(chunks) == Slice(file, start, count)
    ensures clean && start + count <= |file| ==> |Concat(chunks)| == count
    ensures forall i :: 0 <= i < |chunks| ==> 0 < |chunks[i]| <= 65_536
  {
    chunks, clean := [], true;
    var remaining := count;
    var at := Least(start, |file|);
    ghost var from := at;
    while remaining > 0
      invariant 0 <= remaining <= count && from <= at <= |file|
      invariant Concat(chunks) == file[from..at] && at - from == count - remaining
      invariant forall i :: 0 <= i < |chunks| ==> 0 < |chunks[i]| <= FILE_CHUNK
      decreases remaining
    {
      var want := Least(remaining, FILE_CHUNK);
      var available := Least(want, |file| - at);
      if available == 0 {
        break;
      }
      if * {
        clean := false;
        break;
      }
      var n: nat :| 0 < n <= available;
      var chunk := file[at..at + n];
      AppendChunk(file, chunks, from, at, n);
      remaining := remaining - n;
      chunks := chunks + [chunk];
      at := at + n;
      if * {
        clean := false;
        break;
      }
    }
    SpanPrefix(file, start, count, at);
  }

  /** The bytes from the start of a span up to a place in it. */
  lemma SpanPrefix(file: Bytes, start: nat, count: nat, at: nat)
    requires Least(start, |file|) <= at <= Least(start + count, |file|)
    ensures file[Least(start, |file|)..at] <= Slice(file, start, count)
    ensures at == Least(start + count, |file|) ==> file[Least(start, |file|)..at] == Slice(file, start, count)
  {
    var from, to := Least(start, |file|), Least(start + count, |file|);
    assert file[from..to][..at - from] == file[from..at];
  }

  /** The body sent for a resolved range, `None` standing for a 416. */
  function BodyFor(file: Bytes, r: Resolved): Option<Bytes>
    requires r.Partial? ==> r.start <= r.end
  {
    if r.Unsatisfiable? then None
    else
      var (start, count) := SpanServed(r, |file|);
      Some(Slice(file, start, count))
  }

  /** What a request carries beside the range, and what the file has to compare. */
  datatype Validators = Validators(ifRange: Option<HeaderValue>, etag: string, modified: Option<SystemTime>,
                                   parseDate: string -> Option<SystemTime>)
  {
    predicate Match() { IfRangeMatches(ifRange, etag, modified, parseDate) }

    /** A validator was sent, and it is not the current one. */
    predicate Stale() {
      ifRange.Some? && (ToStr(ifRange.value).None? || !Current(ToStr(ifRange.value).value, etag, modified, parseDate))
    }
  }

  function ResolveFor(file: Bytes, range: HeaderValue, v: Validators): Resolved {
    Resolve(Some(range), v.ifRange, |file|, v.etag, v.modified, v.parseDate)
  }

  /** `body` is what is sent for a resolved range. */
  predicate Sent(body: Bytes, file: Bytes, r: Resolved) {
    (r.Partial? ==> r.start <= r.end) && BodyFor(file, r) == Some(body)
  }

  /** `body` answers a request with this `Range` header. */
  predicate Answers(body: Bytes, file: Bytes, range: HeaderValue, v: Validators) {
    Sent(body, file, ResolveFor(file, range, v))
  }

  /** A request without a `Range`, or with one that has a byte outside visible ASCII,
      is answered with the whole file, whatever validator it carries; so is one whose
      validator can be read and is not the current one. */
  lemma WithoutRangeIsWhole(body: Bytes, file: Bytes, range: Option<HeaderValue>, v: Validators)
    requires
      || range.None?
      || (exists i :: 0 <= i < |range.value| && !(32 <= range.value[i] <= 126 || range.value[i] == 9))
      || !IfRangeMatches(v.ifRange, v.etag, v.modified, v.parseDate)
    ensures Sent(body, file, Resolve(range, v.ifRange, |file|, v.etag, v.modified, v.parseDate)) <==> body == file
  {
    if range.Some? {
      TextIff(range.value);
    }
    assert Resolve(range, v.ifRange, |file|, v.etag, v.modified, v.parseDate) == Full;
    assert Slice(file, 0, |file|) == file;
  }

  /** One GET of a file: the body sent, or none for a 416. Without a `Range` that can
      be read, or with a validator that is not current, it is the whole file. */
  method Respond(file: Bytes, range: Option<HeaderValue>, v: Validators) returns (body: Option<Bytes>)
    requires |file| <= U64_MAX
    ensures var r := Resolve(range, v.ifRange, |file|, v.etag, v.modified, v.parseDate);
      && (r.Partial? ==> r.start <= r.end < |file| && body == Some(file[r.start..r.end + 1]))
      && (r.Full? ==> body == Some(file)) && (r.Unsatisfiable? ==> body == None)
    ensures range.None? ==> body == Some(file)
    ensures range.Some? && (exists i :: 0 <= i < |range.value| && !(32 <= range.value[i] <= 126 || range.value[i] == 9)) ==>
      body == Some(file)
    ensures !IfRangeMatches(v.ifRange, v.etag, v.modified, v.parseDate) ==> body == Some(file)
  {
    if range.Some? {
      TextIff(range.value);
    }
    assert Slice(file, 0, |file|) == file;
    var r := Resolve(range, v.ifRange, |file|, v.etag, v.modified, v.parseDate);
    if r.Unsatisfiable? {
      return None;
    }
    var (start, count) := SpanServed(r, |file|);
    var data := ReadSpan(file, start, count);
    body := Some(data);
  }

  /** Positions that cut `[0, len)` into nonempty spans. */
  ghost predicate Cuts(cuts: seq<nat>, len: nat) {
    && |cuts| >= 1 && cuts[0] == 0 && cuts[|cuts| - 1] == len
    && forall i, j :: 0 <= i < j < |cuts| ==> cuts[i] < cuts[j]
  }

  /** The bytes of a file between two cuts. */
  predicate IsPiece(body: Bytes, file: Bytes, from: nat, to: nat) {
    from <= to && body == Slice(file, from, to - from)
  }

  lemma PieceContinues(body: Bytes, file: Bytes, from: nat, to: nat)
    requires to <= |file| && IsPiece(body, file, from, to)
    ensures file[..from] + body == file[..to]
  {
  }

  /** Consecutive pieces put together are what lies before the last cut. */
  lemma {:induction false} PiecesJoin(file: Bytes, cuts: seq<nat>, bodies: seq<Bytes>, n: nat)
    requires Cuts(cuts, |file|) && |bodies| == |cuts| - 1 && n < |cuts|
    requires forall i :: 0 <= i < |bodies| ==> IsPiece(bodies[i], file, cuts[i], cuts[i + 1])
    ensures Concat(bodies[..n]) == file[..cuts[n]]
  {
    if n > 0 {
      PiecesJoin(file, cuts, bodies, n - 1);
      CutsInside(cuts, |file|, n - 1);
      PieceContinues(bodies[n - 1], file, cuts[n - 1], cuts[n]);
      ConcatSnoc(bodies[..n - 1], bodies[n - 1]);
      assert bodies[..n] == bodies[..n - 1] + [bodies[n - 1]];
    }
  }

  lemma CutsInside(cuts: seq<nat>, len: nat, i: nat)
    requires Cuts(cuts, len) && i + 1 < |cuts|
    ensures cuts[i] < cuts[i + 1] <= len
  {
  }

  /** One of a file's consecutive ranges is answered with exactly its piece. */
  lemma RangeIsPiece(body: Bytes, file: Bytes, start: nat, next: nat, v: Validators)
    requires start < next <= |file| <= U64_MAX && v.Match()
    requires Answers(body, file, AskValue(Span(start, next - 1)), v)
    ensures IsPiece(body, file, start, next)
  {
    SpanResolvesFor(file, start, next - 1, v);
    SentPiece(body, file, start, next, ResolveFor(file, AskValue(Span(start, next - 1)), v));
  }

  lemma SentPiece(body: Bytes, file: Bytes, start: nat, next: nat, r: Resolved)
    requires start < next && r == Partial(start, next - 1) && Sent(body, file, r)
    ensures IsPiece(body, file, start, next)
  {
  }

  lemma SpanResolvesFor(file: Bytes, start: nat, end: nat, v: Validators)
    requires start <= end < |file| <= U64_MAX && v.Match()
    ensures ResolveFor(file, AskValue(Span(start, end)), v) == Partial(start, end)
  {
    AskIsVisible(Span(start, end));
    TextReadsBack(PrintAsk(Span(start, end)));
    SpanResolves(start, end, |file|);
  }

  ghost predicate AnswersCut(body: Bytes, file: Bytes, cuts: seq<nat>, i: nat, v: Validators)
    requires i + 1 < |cuts|
  {
    cuts[i + 1] > 0 && Answers(body, file, AskValue(Span(cuts[i], cuts[i + 1] - 1)), v)
  }

  lemma CutIsPiece(body: Bytes, file: Bytes, cuts: seq<nat>, i: nat, v: Validators)
    requires |file| <= U64_MAX && Cuts(cuts, |file|) && i + 1 < |cuts| && v.Match() && AnswersCut(body, file, cuts, i, v)
    ensures IsPiece(body, file, cuts[i], cuts[i + 1])
  {
    CutsInside(cuts, |file|, i);
    RangeIsPiece(body, file, cuts[i], cuts[i + 1], v);
  }

  /** A download in consecutive ranges, under a validator that keeps matching, puts
      the file together again. */
  lemma ResumedDownloadIsWhole(file: Bytes, cuts: seq<nat>, bodies: seq<Bytes>, v: Validators)
    requires |file| <= U64_MAX && Cuts(cuts, |file|) && |bodies| == |cuts| - 1 && v.Match()
    requires forall i :: 0 <= i < |bodies| ==> AnswersCut(bodies[i], file, cuts, i, v)
    ensures Concat(bodies) == file
  {
    forall i | 0 <= i < |bodies| ensures IsPiece(bodies[i], file, cuts[i], cuts[i + 1]) {
      CutIsPiece(bodies[i], file, cuts, i, v);
    }
    PiecesJoin(file, cuts, bodies, |bodies|);
    assert bodies[..|bodies|] == bodies && file[..|file|] == file;
  }

  /** A stale validator that can be read gets the whole file, whatever the range; one that
      is not visible ASCII is answered as if it had not been sent. */
  lemma StaleValidatorGets(body: Bytes, file: Bytes, range: HeaderValue, v: Validators)
    requires v.Stale()
    ensures ToStr(v.ifRange.value).Some? ==> (Answers(body, file, range, v) <==> body == file)
    ensures ToStr(v.ifRange.value).None? ==>
      (Answers(body, file, range, v) <==> Answers(body, file, range, v.(ifRange := None)))
  {
    assert Slice(file, 0, |file|) == file;
  }

  /** A stale validator keeps every range request of a file to the whole file exactly when
      it is visible ASCII. */
  lemma StaleIsHonouredIff(file: Bytes, v: Validators)
    requires v.Stale()
    ensures (forall range, body :: Answers(body, file, range, v) <==> body == file) <==> ToStr(v.ifRange.value).Some?
  {
    if ToStr(v.ifRange.value).Some? {
      forall range, body ensures Answers(body, file, range, v) <==> body == file {
        StaleValidatorGets(body, file, range, v);
      }
    } else {
      NothingAskedFor(file, v);
      assert !Answers(file, file, AskValue(Last(0)), v);
    }
  }

  lemma NothingAskedFor(file: Bytes, v: Validators)
    requires v.Match()
    ensures ResolveFor(file, AskValue(Last(0)), v) == Unsatisfiable
  {
    AskIsVisible(Last(0));
    TextReadsBack(PrintAsk(Last(0)));
    AskedPrint(Last(0));
    ParseMeans(PrintAsk(Last(0)), |file|);
  }

  const TAG: HeaderValue := [0x22, 0xE9, 0x22]

  lemma TagIsUnreadable()
    ensures ToStr(TAG).None?
  {
    assert !VisibleByte(TAG[1]);
  }

  lemma LastByteSent(file: Bytes, v: Validators)
    requires |file| == 2 && v.Match()
    ensures Answers(file[1..], file, AskValue(Span(1, 1)), v)
  {
    SpanResolvesFor(file, 1, 1, v);
    LastByteIs(file, ResolveFor(file, AskValue(Span(1, 1)), v));
  }

  lemma LastByteIs(file: Bytes, r: Resolved)
    requires |file| == 2 && r == Partial(1, 1)
    ensures Sent(file[1..], file, r)
  {
    assert Slice(file, 1, 1) == file[1..];
  }

  /** A tag with one byte above ASCII: a client that holds the first byte of an old file of
      two is sent the second byte of the new one, and ends with neither file. */
  lemma UnreadableTagStitches(before: Bytes, after: Bytes, etag: string, modified: Option<SystemTime>,
                              parseDate: string -> Option<SystemTime>)
    requires |before| == |after| == 2 && before[0] != after[0] && before[1] != after[1]
    ensures var v := Validators(Some(TAG), etag, modified, parseDate); var body := after[1..];
      && v.Stale() && Answers(body, after, AskValue(Span(1, 1)), v)
      && before[..1] + body != before && before[..1] + body != after
  {
    TagIsUnreadable();
    LastByteSent(after, Validators(Some(TAG), etag, modified, parseDate));
    var mixed := before[..1] + after[1..];
    assert mixed[0] == before[0] && mixed[1] == after[1];
  }
}
