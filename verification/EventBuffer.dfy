/**
 The Tetragon event buffer: a sliding window of the last 60 seconds and at most 20,000 events,
 pruned and pushed in place by every stream, and rendered as newline-delimited text.
 */
module EventBuffer {
  import opened Text
  import Aggregation = DependencyAggregation

  const DEP_WINDOW_MS: nat := 60_000
  const MAX_BUFFERED_EVENTS: nat := 20_000

  datatype BufferedLine = BufferedLine(line: string, recordedAtMs: nat)

  /** The oldest admissible time, saturating at zero. */
  function Cutoff(now: nat): nat {
    if now >= DEP_WINDOW_MS then now - DEP_WINDOW_MS else 0
  }

  function Prune(lines: seq<BufferedLine>, cutoff: nat): seq<BufferedLine> {
    if lines != [] && lines[0].recordedAtMs < cutoff then Prune(lines[1..], cutoff) else lines
  }

  function Pushed(lines: seq<BufferedLine>, event: BufferedLine): seq<BufferedLine> {
    (if |lines| >= MAX_BUFFERED_EVENTS then lines[1..] else lines) + [event]
  }

  /** The buffer behind its mutex: each method is one critical section. */
  class Buffer {
    var lines: seq<BufferedLine>

    constructor ()
      ensures lines == []
    {
      lines := [];
    }

    method PruneLocked(now: nat)
      modifies this
      ensures lines == Prune(old(lines), Cutoff(now))
    {
      var cutoff := Cutoff(now);
      while lines != [] && lines[0].recordedAtMs < cutoff
        invariant Prune(lines, cutoff) == Prune(old(lines), cutoff)
        decreases |lines|
      {
        lines := lines[1..];
      }
    }

    /** One received event: the clock is read once to prune and again to stamp the event. */
    method Push(line: string, pruneTime: nat, recordTime: nat)
      modifies this
      ensures lines == Apply(old(lines), PushOp(line, pruneTime, recordTime))
    {
      PruneLocked(pruneTime);
      if |lines| >= MAX_BUFFERED_EVENTS {
        lines := lines[1..];
      }
      lines := lines + [BufferedLine(line, recordTime)];
    }

    method SnapshotNdjson(now: nat) returns (body: string)
      modifies this
      ensures lines == Apply(old(lines), SnapshotOp(now))
      ensures body == Render(Texts(lines))
    {
      PruneLocked(now);
      body := [];
      for i := 0 to |lines|
        invariant lines == Apply(old(lines), SnapshotOp(now))
        invariant body == Render(Texts(lines[..i]))
      {
        RenderSnoc(Texts(lines[..i]), lines[i].line);
        assert Texts(lines[..i + 1]) == Texts(lines[..i]) + [lines[i].line];
        body := body + lines[i].line;
        body := body + ['\n'];
      }
      assert lines[..|lines|] == lines;
    }
  }

  // ---- Runs ----

  datatype Op =
    | PushOp(line: string, pruneTime: nat, recordTime: nat)
    | SnapshotOp(now: nat)

  function Apply(lines: seq<BufferedLine>, op: Op): seq<BufferedLine> {
    match op
    case PushOp(line, pruneTime, recordTime) => Pushed(Prune(lines, Cutoff(pruneTime)), BufferedLine(line, recordTime))
    case SnapshotOp(now) => Prune(lines, Cutoff(now))
  }

  function Run(ops: seq<Op>): seq<BufferedLine> {
    if ops == [] then [] else Apply(Run(ops[..|ops| - 1]), ops[|ops| - 1])
  }

  /** Every event ever pushed, in order. */
  function History(ops: seq<Op>): seq<BufferedLine> {
    if ops == [] then []
    else
      var op := ops[|ops| - 1];
      History(ops[..|ops| - 1]) + (if op.PushOp? then [BufferedLine(op.line, op.recordTime)] else [])
  }

  function FirstReading(op: Op): nat {
    match op case PushOp(_, pruneTime, _) => pruneTime case SnapshotOp(now) => now
  }

  function LastReading(op: Op): nat {
    match op case PushOp(_, _, recordTime) => recordTime case SnapshotOp(now) => now
  }

  /** The clock never runs backwards, within an operation or between operations. */
  predicate ClockAdvances(ops: seq<Op>) {
    && (forall i :: 0 <= i < |ops| ==> FirstReading(ops[i]) <= LastReading(ops[i]))
    && (forall i, j :: 0 <= i < j < |ops| ==> LastReading(ops[i]) <= FirstReading(ops[j]))
  }

  /** At most 20,000 events, none of them older than a minute. */
  predicate InWindow(lines: seq<BufferedLine>, now: nat) {
    |lines| <= 20_000 && forall i :: 0 <= i < |lines| ==> now <= lines[i].recordedAtMs + 60_000
  }

  function Suffix(history: seq<BufferedLine>, n: nat): seq<BufferedLine>
    requires n <= |history|
  {
    history[|history| - n..]
  }

  predicate IsLongestSuffixInWindow(lines: seq<BufferedLine>, history: seq<BufferedLine>, now: nat) {
    && |lines| <= |history| && lines == Suffix(history, |lines|)
    && InWindow(lines, now)
    && forall n :: |lines| < n <= |history| ==> !InWindow(Suffix(history, n), now)
  }

  predicate Chronological(history: seq<BufferedLine>) {
    forall i, j :: 0 <= i < j < |history| ==> history[i].recordedAtMs <= history[j].recordedAtMs
  }

  lemma {:induction false} HistoryIsChronological(ops: seq<Op>)
    requires ClockAdvances(ops)
    ensures Chronological(History(ops))
    ensures forall e, op :: e in History(ops) && op in ops && op == ops[|ops| - 1] ==> e.recordedAtMs <= LastReading(op)
  {
    if ops != [] {
      var init := ops[..|ops| - 1];
      HistoryIsChronological(init);
      if init != [] {
        assert init[|init| - 1] in init;
        assert LastReading(init[|init| - 1]) <= FirstReading(ops[|ops| - 1]);
      }
    }
  }

  /** Pruning at a later time keeps the buffer the longest suffix in the window. */
  lemma {:induction false} PruneKeepsLongestSuffix(lines: seq<BufferedLine>, history: seq<BufferedLine>, now: nat)
    requires Chronological(history)
    requires |lines| <= |history| && lines == Suffix(history, |lines|) && |lines| <= MAX_BUFFERED_EVENTS
    requires forall n :: |lines| < n <= |history| ==> !InWindow(Suffix(history, n), now)
    ensures IsLongestSuffixInWindow(Prune(lines, Cutoff(now)), history, now)
  {
    if lines != [] && lines[0].recordedAtMs < Cutoff(now) {
      assert lines[1..] == Suffix(history, |lines| - 1);
      PruneKeepsLongestSuffix(lines[1..], history, now);
    }
  }

  lemma EarlierTimeExcludes(lines: seq<BufferedLine>, history: seq<BufferedLine>, earlier: nat, later: nat)
    requires IsLongestSuffixInWindow(lines, history, earlier) && earlier <= later
    ensures forall n :: |lines| < n <= |history| ==> !InWindow(Suffix(history, n), later)
  {
  }

  lemma PushKeepsLongestSuffix(lines: seq<BufferedLine>, history: seq<BufferedLine>, event: BufferedLine, now: nat)
    requires IsLongestSuffixInWindow(lines, history, now) && event.recordedAtMs >= now
    ensures IsLongestSuffixInWindow(Pushed(lines, event), history + [event], now)
  {
    var lines', history' := Pushed(lines, event), history + [event];
    assert lines' == Suffix(history', |lines'|);
    forall n | |lines'| < n <= |history'| ensures !InWindow(Suffix(history', n), now) {
      var shorter, longer := Suffix(history, n - 1), Suffix(history', n);
      assert longer == shorter + [event];
      if |lines| < n - 1 && n - 1 <= MAX_BUFFERED_EVENTS {
        var i :| 0 <= i < |shorter| && now > shorter[i].recordedAtMs + 60_000;
        assert longer[i] == shorter[i];
      }
    }
  }

  /**
   After any run of pushes and snapshots the buffer is exactly the longest suffix of the event
   history that fits the size cap and lies inside the window of the last operation.
   */
  lemma {:induction false} BufferIsLongestSuffix(ops: seq<Op>)
    requires ClockAdvances(ops) && ops != []
    ensures IsLongestSuffixInWindow(Run(ops), History(ops), FirstReading(ops[|ops| - 1]))
  {
    var init, op := ops[..|ops| - 1], ops[|ops| - 1];
    var now := FirstReading(op);
    var lines, history := Run(init), History(init);
    if init != [] {
      BufferIsLongestSuffix(init);
      assert init[|init| - 1] == ops[|ops| - 2];
      EarlierTimeExcludes(lines, history, FirstReading(init[|init| - 1]), now);
    }
    HistoryIsChronological(init);
    PruneKeepsLongestSuffix(lines, history, now);
    if op.PushOp? {
      PushKeepsLongestSuffix(Prune(lines, Cutoff(now)), history, BufferedLine(op.line, op.recordTime), now);
    } else {
      assert History(ops) == history;
    }
  }

  // ---- Rendering and reading back ----

  function Texts(lines: seq<BufferedLine>): (texts: seq<string>)
    ensures |texts| == |lines|
  {
    seq(|lines|, i requires 0 <= i < |lines| => lines[i].line)
  }

  /** Each line followed by a newline. */
  function Render(texts: seq<string>): string {
    if texts == [] then [] else texts[0] + ['\n'] + Render(texts[1..])
  }

  lemma {:induction false} RenderSnoc(texts: seq<string>, text: string)
    ensures Render(texts + [text]) == Render(texts) + text + ['\n']
  {
    if texts == [] {
      assert Render([text][1..]) == [];
    } else {
      RenderSnoc(texts[1..], text);
      assert (texts + [text])[1..] == texts[1..] + [text];
    }
  }

  function StripCarriageReturn(s: string): string {
    if s != [] && s[|s| - 1] == '\r' then s[..|s| - 1] else s
  }

  function StripCarriageReturns(pieces: seq<string>): (r: seq<string>)
    ensures |r| == |pieces|
  {
    seq(|pieces|, i requires 0 <= i < |pieces| => StripCarriageReturn(pieces[i]))
  }

  /** `str::lines`: the last, unterminated line counts only if it is not empty. */
  function Lines(body: string): seq<string> {
    var pieces := Split(body, '\n');
    var last := pieces[|pieces| - 1];
    StripCarriageReturns(pieces[..|pieces| - 1]) + (if last == [] then [] else [last])
  }

  predicate SingleLine(text: string) {
    '\n' !in text && StripCarriageReturn(text) == text
  }

  lemma {:induction false} SplitRendered(texts: seq<string>)
    requires forall i :: 0 <= i < |texts| ==> '\n' !in texts[i]
    ensures Split(Render(texts), '\n') == texts + [[]]
  {
    if texts != [] {
      SplitRendered(texts[1..]);
      SplitPiece(texts[0], '\n', Render(texts[1..]));
    }
  }

  lemma LinesAvoidNewlines(body: string)
    ensures forall i :: 0 <= i < |Lines(body)| ==> '\n' !in Lines(body)[i]
  {
    SplitPiecesAvoidSeparator(body, '\n');
    var pieces := Split(body, '\n');
    forall i | 0 <= i < |Lines(body)| ensures '\n' !in Lines(body)[i] {
      assert pieces[i] in pieces;
    }
  }

  /** Reading the rendered text back gives the lines exactly when each is a single line. */
  lemma RenderedLinesReadBackExactlyWhen(texts: seq<string>)
    ensures Lines(Render(texts)) == texts <==> forall i :: 0 <= i < |texts| ==> SingleLine(texts[i])
  {
    LinesAvoidNewlines(Render(texts));
    if forall i :: 0 <= i < |texts| ==> '\n' !in texts[i] {
      SplitRendered(texts);
      assert (texts + [[]])[..|texts|] == texts;
      assert Lines(Render(texts)) == StripCarriageReturns(texts);
    }
  }

  /** The reader's line cap never drops a line of a snapshot of single-line events. */
  lemma SnapshotNeverReachesTheLineCap(ops: seq<Op>, read: Aggregation.LineReader<string>)
    requires ClockAdvances(ops) && ops != []
    requires forall i :: 0 <= i < |Run(ops)| ==> SingleLine(Run(ops)[i].line)
    ensures var lines := Lines(Render(Texts(Run(ops))));
            lines == Texts(Run(ops)) && Aggregation.Count(read, lines, Aggregation.LineCapped) == 0
  {
    BufferIsLongestSuffix(ops);
    RenderedLinesReadBackExactlyWhen(Texts(Run(ops)));
    NoLineIsCapped(Texts(Run(ops)), read);
  }

  lemma {:induction false} NoLineIsCapped(lines: seq<string>, read: Aggregation.LineReader<string>)
    requires |lines| <= Aggregation.MAX_TETRAGON_LINES
    ensures Aggregation.Count(read, lines, Aggregation.LineCapped) == 0
  {
    if lines != [] {
      NoLineIsCapped(lines[..|lines| - 1], read);
    }
  }
}
