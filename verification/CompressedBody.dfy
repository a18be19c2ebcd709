/** The compressing body: it polls an inner body and passes its frames through an encoder. */
module CompressedBody {
  import opened Basics

  datatype Frame = Data(data: Bytes) | Trailers(fields: Bytes)

  /** The answer of a poll; `Ready(None)` is the end of the body. */
  datatype Poll = Pending | Ready(frame: Option<Frame>)

  const END: Poll := Ready(None)

  /** A deterministic encoder, seen from outside: what a flushed write releases, given
      all that was written before, and what finishing releases. `None` is an I/O error. */
  datatype Codec = Codec(write: (seq<Bytes>, Bytes) -> Option<Bytes>, finish: seq<Bytes> -> Option<Bytes>)

  /** How far the inner body was polled, and what the encoder was given; no encoder is left
      once the body is complete. */
  datatype Progress = Progress(polled: nat, encoder: Option<seq<Bytes>>)

  const FRESH := Progress(0, Some([]))

  /** What the inner body answers: its script, and then nothing yet. */
  function InnerAt(script: seq<Poll>, n: nat): Poll {
    if n < |script| then script[n] else Pending
  }

  /** The answer that ends the body: the finishing bytes, if there are any. */
  function Closing(tail: Option<Bytes>): Poll {
    if tail.None? || tail.value == [] then END else Ready(Some(Data(tail.value)))
  }

  /** One poll of the compressed body. */
  function Polled(codec: Codec, script: seq<Poll>, p: Progress): (Progress, Poll)
    decreases |script| - p.polled
  {
    if p.encoder.None? then (p, END)
    else
      var given, next := p.encoder.value, p.polled + 1;
      match InnerAt(script, p.polled)
      case Pending => (Progress(next, p.encoder), Pending)
      case Ready(None) => (Progress(next, None), Closing(codec.finish(given)))
      case Ready(Some(Trailers(fields))) => (Progress(next, p.encoder), Ready(Some(Trailers(fields))))
      case Ready(Some(Data(data))) =>
        match codec.write(given, data)
        case None => (Progress(next, None), END)
        case Some(out) =>
          if out == [] then Polled(codec, script, Progress(next, Some(given + [data])))
          else (Progress(next, Some(given + [data])), Ready(Some(Data(out))))
  }

  class CompressedBody {
    const codec: Codec
    const script: seq<Poll>
    var polled: nat
    var encoder: Option<seq<Bytes>>

    constructor (codec: Codec, script: seq<Poll>)
      ensures this.codec == codec && this.script == script && State() == FRESH
    {
      this.codec, this.script := codec, script;
      polled, encoder := 0, Some([]);
    }

    function State(): Progress
      reads this
    {
      Progress(polled, encoder)
    }

    /** Compresses `data`; what it returns may be empty, and is when there is no encoder. */
    method Write(data: Bytes) returns (out: Option<Bytes>)
      modifies this`encoder
      ensures old(encoder).None? ==> out == Some([]) && encoder == None
      ensures old(encoder).Some? ==> out == codec.write(old(encoder).value, data) && encoder == Some(old(encoder).value + [data])
    {
      if encoder.None? {
        return Some([]);
      }
      out := codec.write(encoder.value, data);
      encoder := Some(encoder.value + [data]);
    }

    /** Takes the encoder and returns its finishing bytes. */
    method Finish() returns (tail: Option<Bytes>)
      modifies this`encoder
      ensures encoder == None
      ensures tail == if old(encoder).None? then Some([]) else codec.finish(old(encoder).value)
    {
      if encoder.None? {
        return Some([]);
      }
      tail := codec.finish(encoder.value);
      encoder := None;
    }

    method PollFrame() returns (answer: Poll)
      modifies this`polled, this`encoder
      ensures (State(), answer) == Polled(codec, script, old(State()))
    {
      ghost var goal := Polled(codec, script, State());
      while encoder.Some?
        invariant Polled(codec, script, State()) == goal
        decreases |script| - polled
      {
        var from := polled;
        polled := polled + 1;
        match InnerAt(script, from)
        case Pending => return Pending;
        case Ready(None) =>
          var tail := Finish();
          if tail.None? || tail.value == [] {
            return END;
          }
          return Ready(Some(Data(tail.value)));
        case Ready(Some(Trailers(fields))) => return Ready(Some(Trailers(fields)));
        case Ready(Some(Data(data))) =>
          var out := Write(data);
          if out.None? {
            encoder := None;
            return END;
          }
          if out.value != [] {
            return Ready(Some(Data(out.value)));
          }
      }
      return END;
    }
  }

  // ------------------------------------------------------------------ runs

  /** `n` polls of a fresh body: where it stands, and the answers. */
  function Run(codec: Codec, script: seq<Poll>, n: nat): (Progress, seq<Poll>) {
    if n == 0 then (FRESH, []) else Next(codec, script, Run(codec, script, n - 1))
  }

  function Next(codec: Codec, script: seq<Poll>, run: (Progress, seq<Poll>)): (Progress, seq<Poll>) {
    var (p, answer) := Polled(codec, script, run.0);
    (p, run.1 + [answer])
  }

  function DataOf(p: Poll): seq<Bytes> {
    if p.Ready? && p.frame.Some? && p.frame.value.Data? then [p.frame.value.data] else []
  }

  function TrailersOf(p: Poll): seq<Bytes> {
    if p.Ready? && p.frame.Some? && p.frame.value.Trailers? then [p.frame.value.fields] else []
  }

  /** The data frames among some answers. */
  function Chunks(polls: seq<Poll>): seq<Bytes> {
    if polls == [] then [] else Chunks(polls[..|polls| - 1]) + DataOf(polls[|polls| - 1])
  }

  /** The trailers among some answers. */
  function Fields(polls: seq<Poll>): seq<Bytes> {
    if polls == [] then [] else Fields(polls[..|polls| - 1]) + TrailersOf(polls[|polls| - 1])
  }

  /** Everything the encoder releases while it is given `chunks`, in order. */
  function Released(codec: Codec, chunks: seq<Bytes>): Option<Bytes> {
    if chunks == [] then Some([])
    else
      var before, last := chunks[..|chunks| - 1], chunks[|chunks| - 1];
      match Released(codec, before)
      case None => None
      case Some(bytes) =>
        match codec.write(before, last)
        case None => None
        case Some(out) => Some(bytes + out)
  }

  function OrNothing(tail: Option<Bytes>): Bytes { if tail.Some? then tail.value else [] }

  /** The inner body as far as it was polled: past the end of its script there is nothing. */
  function Seen(script: seq<Poll>, polled: nat): seq<Poll> {
    if polled <= |script| then script[..polled] else script
  }

  /** All is passed on: what was sent is what the encoder released for all that was seen. */
  ghost predicate Open(codec: Codec, seen: seq<Poll>, sent: Bytes, given: seq<Bytes>) {
    (END in seen, given, Released(codec, given)) == (false, Chunks(seen), Some(sent))
  }

  /** The inner body ended: the finishing bytes were sent, once and last. */
  ghost predicate Finished(codec: Codec, seen: seq<Poll>, sent: Bytes) {
    && seen != [] && seen[|seen| - 1] == END && END !in seen[..|seen| - 1]
    && var given := Chunks(seen);
       Released(codec, given).Some? && sent == Released(codec, given).value + OrNothing(codec.finish(given))
  }

  /** A write failed: what was released before it was sent, and the stream stops there. */
  ghost predicate Failed(codec: Codec, seen: seq<Poll>, sent: Bytes) {
    && seen != [] && END !in seen && DataOf(seen[|seen| - 1]) != []
    && Released(codec, Chunks(seen)) == None && Released(codec, Chunks(seen[..|seen| - 1])) == Some(sent)
  }

  ghost predicate Accounted(codec: Codec, script: seq<Poll>, p: Progress, sent: Bytes) {
    var seen := Seen(script, p.polled);
    match p.encoder
    case Some(given) => Open(codec, seen, sent, given)
    case None => Finished(codec, seen, sent) || Failed(codec, seen, sent)
  }

  lemma ChunksStep(polls: seq<Poll>, last: Poll)
    ensures Chunks(polls + [last]) == Chunks(polls) + DataOf(last)
    ensures Fields(polls + [last]) == Fields(polls) + TrailersOf(last)
  {
    assert (polls + [last])[..|polls|] == polls;
  }

  lemma ReleasedStep(codec: Codec, given: seq<Bytes>, chunk: Bytes)
    requires Released(codec, given).Some?
    ensures Released(codec, given + [chunk]) ==
      match codec.write(given, chunk)
      case None => None
      case Some(out) => Some(Released(codec, given).value + out)
  {
    assert (given + [chunk])[..|given|] == given;
  }

  lemma SeenStep(script: seq<Poll>, n: nat)
    ensures Seen(script, n + 1) == if n < |script| then Seen(script, n) + [script[n]] else Seen(script, n)
  {
  }

  /** Reading one more frame. */
  lemma ReadOne(codec: Codec, seen: seq<Poll>, sent: Bytes, given: seq<Bytes>, chunk: Bytes)
    requires Open(codec, seen, sent, given)
    ensures var more := seen + [Ready(Some(Data(chunk)))];
      match codec.write(given, chunk)
      case None => Failed(codec, more, sent)
      case Some(out) => Open(codec, more, sent + out, given + [chunk])
  {
    var frame := Ready(Some(Data(chunk)));
    ChunksStep(seen, frame);
    ReleasedStep(codec, given, chunk);
    assert (seen + [frame])[..|seen|] == seen;
  }

  lemma ReadEnd(codec: Codec, seen: seq<Poll>, sent: Bytes, given: seq<Bytes>)
    requires Open(codec, seen, sent, given)
    ensures Finished(codec, seen + [END], sent + OrNothing(codec.finish(given)))
  {
    ChunksStep(seen, END);
    assert (seen + [END])[..|seen|] == seen;
    assert Chunks(seen) + [] == Chunks(seen);
  }

  lemma ReadOther(codec: Codec, seen: seq<Poll>, sent: Bytes, given: seq<Bytes>, other: Poll)
    requires Open(codec, seen, sent, given) && DataOf(other) == [] && other != END
    ensures Open(codec, seen + [other], sent, given)
  {
    ChunksStep(seen, other);
    assert Chunks(seen) + [] == Chunks(seen);
  }

  /** What one poll adds to what was sent. */
  function Added(answer: Poll): Bytes {
    if answer.Ready? && answer.frame.Some? && answer.frame.value.Data? then answer.frame.value.data else []
  }

  lemma AddedJoined(answers: seq<Poll>, answer: Poll)
    ensures Concat(Chunks(answers + [answer])) == Concat(Chunks(answers)) + Added(answer)
  {
    ChunksStep(answers, answer);
    if DataOf(answer) == [] {
      assert Chunks(answers) + [] == Chunks(answers);
    } else {
      ConcatSnoc(Chunks(answers), Added(answer));
    }
  }

  ghost predicate PollIsAccounted(codec: Codec, script: seq<Poll>, p: Progress, sent: Bytes) {
    var (p', answer) := Polled(codec, script, p);
    Accounted(codec, script, p', sent + Added(answer))
  }

  lemma NothingSent(sent: Bytes)
    ensures sent + [] == sent
  {
  }

  lemma OtherAccounts(codec: Codec, script: seq<Poll>, p: Progress, sent: Bytes)
    requires Accounted(codec, script, p, sent) && p.encoder.Some? && DataOf(InnerAt(script, p.polled)) == []
    ensures PollIsAccounted(codec, script, p, sent)
  {
    NothingSent(sent);
    SeenStep(script, p.polled);
    if InnerAt(script, p.polled) == END {
      ReadEnd(codec, Seen(script, p.polled), sent, p.encoder.value);
    } else if p.polled < |script| {
      ReadOther(codec, Seen(script, p.polled), sent, p.encoder.value, script[p.polled]);
    }
  }

  /** A data frame: what the encoder releases for it goes out, or its failure ends the body. */
  lemma DataAccounts(codec: Codec, script: seq<Poll>, p: Progress, sent: Bytes, data: Bytes)
    requires Accounted(codec, script, p, sent) && p.encoder.Some?
    requires InnerAt(script, p.polled) == Ready(Some(Data(data)))
    ensures var next := codec.write(p.encoder.value, data);
      Accounted(codec, script, Progress(p.polled + 1, if next.None? then None else Some(p.encoder.value + [data])),
                sent + OrNothing(next))
  {
    NothingSent(sent);
    SeenStep(script, p.polled);
    ReadOne(codec, Seen(script, p.polled), sent, p.encoder.value, data);
  }

  /** One poll keeps the account. */
  lemma {:induction false} PollAccounts(codec: Codec, script: seq<Poll>, p: Progress, sent: Bytes)
    requires Accounted(codec, script, p, sent)
    ensures PollIsAccounted(codec, script, p, sent)
    decreases |script| - p.polled
  {
    NothingSent(sent);
    if p.encoder.Some? {
      var chunk := DataOf(InnerAt(script, p.polled));
      if chunk == [] {
        OtherAccounts(codec, script, p, sent);
      } else {
        DataAccounts(codec, script, p, sent, chunk[0]);
        if codec.write(p.encoder.value, chunk[0]) == Some([]) {
          PollAccounts(codec, script, Progress(p.polled + 1, Some(p.encoder.value + chunk)), sent);
        }
      }
    }
  }

  lemma FieldsStep(script: seq<Poll>, n: nat)
    ensures Fields(Seen(script, n + 1)) == Fields(Seen(script, n)) + TrailersOf(InnerAt(script, n))
  {
    SeenStep(script, n);
    if n < |script| {
      ChunksStep(Seen(script, n), script[n]);
    } else {
      assert Fields(script) + [] == Fields(script);
    }
  }

  /** What a poll passes on beside data: the trailers it met; and no frame is empty. */
  lemma {:induction false} PollPasses(codec: Codec, script: seq<Poll>, p: Progress)
    ensures var (p', answer) := Polled(codec, script, p);
      && [] !in DataOf(answer)
      && p.polled <= p'.polled
      && Fields(Seen(script, p'.polled)) == Fields(Seen(script, p.polled)) + TrailersOf(answer)
    decreases |script| - p.polled
  {
    var seen := Seen(script, p.polled);
    assert Fields(seen) + [] == Fields(seen);
    if p.encoder.Some? {
      FieldsStep(script, p.polled);
      match InnerAt(script, p.polled)
      case Ready(Some(Data(data))) =>
        if codec.write(p.encoder.value, data) == Some([]) {
          PollPasses(codec, script, Progress(p.polled + 1, Some(p.encoder.value + [data])));
        }
      case _ =>
    }
  }

  lemma {:induction false} ChunksFirst(first: Poll, rest: seq<Poll>)
    ensures Chunks([first] + rest) == DataOf(first) + Chunks(rest)
    decreases |rest|
  {
    if rest == [] {
      assert [first] + rest == [first] && [first][..0] == [];
    } else {
      var init, last := rest[..|rest| - 1], rest[|rest| - 1];
      ChunksFirst(first, init);
      assert ([first] + rest)[..|rest|] == [first] + init;
    }
  }

  /** The answer of the inner body at `i` was data for which the encoder, given
      `given` before those answers, released nothing. */
  predicate Swallowed(codec: Codec, script: seq<Poll>, given: seq<Bytes>, from: nat, i: nat) {
    && from <= i < |script| && script[i].Ready? && script[i].frame.Some? && script[i].frame.value.Data?
    && codec.write(given + Chunks(script[from..i]), script[i].frame.value.data) == Some([])
  }

  lemma SwallowedFirst(codec: Codec, script: seq<Poll>, given: seq<Bytes>, data: Bytes, from: nat)
    requires from < |script| && script[from] == Ready(Some(Data(data))) && codec.write(given, data) == Some([])
    ensures Swallowed(codec, script, given, from, from)
  {
    assert script[from..from] == [] && given + [] == given;
  }

  lemma SwallowedLater(codec: Codec, script: seq<Poll>, given: seq<Bytes>, data: Bytes, from: nat, i: nat)
    requires from < |script| && script[from] == Ready(Some(Data(data)))
    requires Swallowed(codec, script, given + [data], from + 1, i)
    ensures Swallowed(codec, script, given, from, i)
  {
    assert script[from..i] == [script[from]] + script[from + 1..i];
    ChunksFirst(script[from], script[from + 1..i]);
    assert given + ([data] + Chunks(script[from + 1..i])) == (given + [data]) + Chunks(script[from + 1..i]);
  }

  /** Everything a poll reads before the last answer it meets is swallowed. */
  lemma {:induction false} PollSwallows(codec: Codec, script: seq<Poll>, p: Progress)
    requires p.encoder.Some?
    ensures var last := Polled(codec, script, p).0.polled - 1;
      p.polled <= last && forall i :: p.polled <= i < last ==> Swallowed(codec, script, p.encoder.value, p.polled, i)
    decreases |script| - p.polled
  {
    match InnerAt(script, p.polled)
    case Ready(Some(Data(data))) =>
      if codec.write(p.encoder.value, data) == Some([]) {
        var next := Progress(p.polled + 1, Some(p.encoder.value + [data]));
        PollSwallows(codec, script, next);
        SwallowedFirst(codec, script, p.encoder.value, data, p.polled);
        forall i | p.polled < i < Polled(codec, script, next).0.polled - 1
          ensures Swallowed(codec, script, p.encoder.value, p.polled, i)
        {
          assert Swallowed(codec, script, p.encoder.value + [data], p.polled + 1, i);
          SwallowedLater(codec, script, p.encoder.value, data, p.polled, i);
        }
      }
    case _ =>
  }

  /** What one poll answers, by the last answer it met of the inner body: nothing yet
      exactly when that was nothing yet, trailers exactly when it was those trailers;
      after an end or a failed write no encoder is left. */
  lemma {:induction false} PollAnswers(codec: Codec, script: seq<Poll>, p: Progress)
    requires p.encoder.Some?
    ensures var (p', answer) := Polled(codec, script, p);
      && p.polled < p'.polled
      && var last := if p'.polled <= |script| then script[p'.polled - 1] else Pending;
         && (answer == Pending <==> last == Pending)
         && (answer.Ready? && answer.frame.Some? && answer.frame.value.Trailers? <==>
              last.Ready? && last.frame.Some? && last.frame.value.Trailers?)
         && (answer.Ready? && answer.frame.Some? && answer.frame.value.Trailers? ==> answer == last)
         && (last == Ready(None) ==> p'.encoder.None?)
         && (last.Ready? && last.frame.Some? && last.frame.value.Data? && answer.frame.Some? ==> p'.encoder.Some?)
    decreases |script| - p.polled
  {
    match InnerAt(script, p.polled)
    case Ready(Some(Data(data))) =>
      if codec.write(p.encoder.value, data) == Some([]) {
        PollAnswers(codec, script, Progress(p.polled + 1, Some(p.encoder.value + [data])));
      }
    case _ =>
  }

  /** What holds at the start and is kept by every poll holds in every run. */
  lemma {:induction false} RunKeeps(codec: Codec, script: seq<Poll>, n: nat, holds: ((Progress, seq<Poll>)) -> bool)
    requires holds((FRESH, []))
    requires forall run :: holds(run) ==> holds(Next(codec, script, run))
    ensures holds(Run(codec, script, n))
  {
    if n > 0 {
      RunKeeps(codec, script, n - 1, holds);
    }
  }

  ghost predicate RunAccounted(codec: Codec, script: seq<Poll>, run: (Progress, seq<Poll>)) {
    Accounted(codec, script, run.0, Concat(Chunks(run.1)))
  }

  lemma NextAccounts(codec: Codec, script: seq<Poll>, run: (Progress, seq<Poll>))
    requires RunAccounted(codec, script, run)
    ensures RunAccounted(codec, script, Next(codec, script, run))
  {
    PollAccounts(codec, script, run.0, Concat(Chunks(run.1)));
    AddedJoined(run.1, Polled(codec, script, run.0).1);
  }

  /** Over every run: the data frames put together are the encoder's outputs in order and,
      once the inner body ended, its finishing bytes exactly once. */
  lemma RunAccounts(codec: Codec, script: seq<Poll>, n: nat)
    ensures RunAccounted(codec, script, Run(codec, script, n))
  {
    NothingYet(codec, script);
    forall run | RunAccounted(codec, script, run) ensures RunAccounted(codec, script, Next(codec, script, run)) {
      NextAccounts(codec, script, run);
    }
    RunKeeps(codec, script, n, run => RunAccounted(codec, script, run));
  }

  lemma NothingYet(codec: Codec, script: seq<Poll>)
    ensures RunAccounted(codec, script, (FRESH, []))
  {
    assert Seen(script, 0) == [];
  }

  /** No data frame is empty, and the trailers are those met in the inner body. */
  ghost predicate Passed(script: seq<Poll>, p: Progress, answers: seq<Poll>) {
    [] !in Chunks(answers) && Fields(answers) == Fields(Seen(script, p.polled))
  }

  lemma PollKeepsPassed(codec: Codec, script: seq<Poll>, p: Progress, answers: seq<Poll>)
    requires Passed(script, p, answers)
    ensures Passed(script, Polled(codec, script, p).0, answers + [Polled(codec, script, p).1])
  {
    PollPasses(codec, script, p);
    ChunksStep(answers, Polled(codec, script, p).1);
  }

  /** Over every run: no empty data frame goes out, and the trailers pass through. */
  lemma RunPasses(codec: Codec, script: seq<Poll>, n: nat)
    ensures Passed(script, Run(codec, script, n).0, Run(codec, script, n).1)
  {
    assert Seen(script, 0) == [];
    forall run: (Progress, seq<Poll>) | Passed(script, run.0, run.1)
      ensures Passed(script, Next(codec, script, run).0, Next(codec, script, run).1)
    {
      PollKeepsPassed(codec, script, run.0, run.1);
    }
    RunKeeps(codec, script, n, (run: (Progress, seq<Poll>)) => Passed(script, run.0, run.1));
  }

  lemma {:induction false} PollEnds(codec: Codec, script: seq<Poll>, p: Progress)
    ensures Polled(codec, script, p).1 == END ==> Polled(codec, script, p).0.encoder.None?
    decreases |script| - p.polled
  {
    if p.encoder.Some? {
      match InnerAt(script, p.polled)
      case Ready(Some(Data(data))) =>
        if codec.write(p.encoder.value, data) == Some([]) {
          PollEnds(codec, script, Progress(p.polled + 1, Some(p.encoder.value + [data])));
        }
      case _ =>
    }
  }

  lemma {:induction false} NothingAfter(codec: Codec, script: seq<Poll>, n: nat, more: nat)
    requires Run(codec, script, n).0.encoder.None?
    ensures Run(codec, script, n + more).0 == Run(codec, script, n).0
    ensures |Run(codec, script, n + more).1| == n + more
    ensures more > 0 ==> Run(codec, script, n + more).1[n + more - 1] == END
    decreases more
  {
    RunLength(codec, script, n + more);
    if more > 0 {
      NothingAfter(codec, script, n, more - 1);
      RunLength(codec, script, n + more - 1);
    }
  }

  lemma {:induction false} RunLength(codec: Codec, script: seq<Poll>, n: nat)
    ensures |Run(codec, script, n).1| == n
  {
    if n > 0 {
      RunLength(codec, script, n - 1);
    }
  }

  /** Once a poll answered that the body ended, every later one does, and the inner body is
      not polled again. */
  lemma EndIsFinal(codec: Codec, script: seq<Poll>, n: nat, more: nat)
    requires n > 0 && |Run(codec, script, n).1| == n && Run(codec, script, n).1[n - 1] == END
    ensures Run(codec, script, n + more).0 == Run(codec, script, n).0
    ensures |Run(codec, script, n + more).1| == n + more && Run(codec, script, n + more).1[n + more - 1] == END
  {
    RunLength(codec, script, n - 1);
    RunLength(codec, script, n + more);
    PollEnds(codec, script, Run(codec, script, n - 1).0);
    NothingAfter(codec, script, n, more);
  }

  /** Once the inner body was seen to end, whether that poll gave finishing bytes or not,
      every later poll answers that the body ended, and the inner body is not polled again. */
  lemma FinishIsFinal(codec: Codec, script: seq<Poll>, n: nat, more: nat)
    requires END in Seen(script, Run(codec, script, n).0.polled)
    ensures Run(codec, script, n + more).0 == Run(codec, script, n).0
    ensures |Run(codec, script, n + more).1| == n + more
    ensures more > 0 ==> Run(codec, script, n + more).1[n + more - 1] == END
  {
    RunAccounts(codec, script, n);
    NothingAfter(codec, script, n, more);
  }

  // -------------------------------------------------------------- delivery

  lemma {:induction false} PollAdvances(codec: Codec, script: seq<Poll>, p: Progress)
    ensures p.encoder.Some? ==> Polled(codec, script, p).0.polled > p.polled
    decreases |script| - p.polled
  {
    if p.encoder.Some? {
      match InnerAt(script, p.polled)
      case Ready(Some(Data(data))) =>
        if codec.write(p.encoder.value, data) == Some([]) {
          PollAdvances(codec, script, Progress(p.polled + 1, Some(p.encoder.value + [data])));
        }
      case _ =>
    }
  }

  lemma {:induction false} RunAdvances(codec: Codec, script: seq<Poll>, n: nat)
    ensures Run(codec, script, n).0.encoder.Some? ==> Run(codec, script, n).0.polled >= n
  {
    if n > 0 {
      RunAdvances(codec, script, n - 1);
      PollAdvances(codec, script, Run(codec, script, n - 1).0);
    }
  }

  /** A body whose frames the encoder accepts is delivered whole by as many polls as it
      has answers: all that was released, the finishing bytes, and all trailers. */
  lemma WholeBodyArrives(codec: Codec, events: seq<Poll>, n: nat)
    requires END !in events && n > |events| && Released(codec, Chunks(events)).Some?
    ensures var (p, answers) := Run(codec, events + [END], n);
      && p.encoder.None?
      && Concat(Chunks(answers)) == Released(codec, Chunks(events)).value + OrNothing(codec.finish(Chunks(events)))
      && Fields(answers) == Fields(events)
  {
    var script := events + [END];
    var (p, answers) := Run(codec, script, n);
    RunAccounts(codec, script, n);
    RunAdvances(codec, script, n);
    RunPasses(codec, script, n);
    AllSeen(codec, events, p, Concat(Chunks(answers)));
    ChunksStep(events, END);
    assert Fields(events) + [] == Fields(events);
  }

  /** An account past the last event is closed: everything was seen and sent. */
  lemma AllSeen(codec: Codec, events: seq<Poll>, p: Progress, sent: Bytes)
    requires END !in events && Released(codec, Chunks(events)).Some?
    requires Accounted(codec, events + [END], p, sent) && (p.encoder.Some? ==> p.polled > |events|)
    ensures p.encoder.None? && Seen(events + [END], p.polled) == events + [END]
    ensures sent == Released(codec, Chunks(events)).value + OrNothing(codec.finish(Chunks(events)))
  {
    var script := events + [END];
    var seen := Seen(script, p.polled);
    assert script[|events|] == END;
    assert p.encoder.Some? ==> seen == script && END in seen;
    if Failed(codec, seen, sent) {
      FailsNowhere(codec, events, |seen|);
    } else {
      EndsOnlyThere(events, seen);
      EndAddsNothing(events);
    }
  }

  lemma EndAddsNothing(events: seq<Poll>)
    ensures Chunks(events + [END]) == Chunks(events)
  {
    ChunksStep(events, END);
    assert Chunks(events) + [] == Chunks(events);
  }

  lemma EndsOnlyThere(events: seq<Poll>, seen: seq<Poll>)
    requires END !in events && seen <= events + [END] && END in seen
    ensures seen == events + [END]
  {
    var i :| 0 <= i < |seen| && seen[i] == END;
    assert (events + [END])[i] == END;
    assert (events + [END])[..|events| + 1] == events + [END];
  }

  lemma {:induction false} PrefixReleased(codec: Codec, events: seq<Poll>, n: nat)
    requires n <= |events| && Released(codec, Chunks(events)).Some?
    ensures Released(codec, Chunks(events[..n])).Some?
    decreases |events|
  {
    if n == |events| {
      assert events[..n] == events;
    } else {
      var init := events[..|events| - 1];
      var last := DataOf(events[|events| - 1]);
      assert Chunks(events) == Chunks(init) + last;
      if last == [] {
        assert Chunks(events) == Chunks(init);
      } else {
        assert Chunks(events)[..|Chunks(events)| - 1] == Chunks(init);
      }
      PrefixReleased(codec, init, n);
      assert init[..n] == events[..n];
    }
  }

  lemma FailsNowhere(codec: Codec, events: seq<Poll>, n: nat)
    requires n <= |events| + 1 && END !in (events + [END])[..n] && Released(codec, Chunks(events)).Some?
    ensures Released(codec, Chunks((events + [END])[..n])).Some?
  {
    var script := events + [END];
    assert script[|events|] == END && script[..|events| + 1] == script;
    assert n <= |events|;
    PrefixReleased(codec, events, n);
    assert events[..n] == script[..n];
  }
}
