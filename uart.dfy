/**
 * The application state of `App`: the command-word list and the edits made
 * to it, the start guard and the stop flag, and the worker's round loop.
 *
 * The worker thread, the stop Event and the serial port are replaced by
 * inputs: `stopAt` is the number of checkpoint readings at which the stop
 * flag is still clear (the flag is only ever set while a run is under way,
 * so once it reads set it stays set), `device[j]` is what the port delivers
 * during the `j`-th exchange of the run (or the exception it raises), and
 * `rxBudget` is the receive deadline counted in reader passes.
 */
module Uart {
  import opened Results
  import opened Hex32
  import opened Frame
  import opened Reader
  import opened WordList

  /** What the port does during one exchange. */
  datatype Reply =
    | Arrivals(chunks: seq<seq<Byte>>)  // the bytes entering its input buffer, pass by pass
    | PortFailure(reason: string)       // reset, write or read raises

  /** How a run ends: `STOPPED` after the loop, or `ERROR: ...` on an exception. */
  datatype Exit = Stopped | Errored(reason: string)

  datatype StartOutcome = Started | AlreadyRunning | EmptyList

  /** A device that has nothing more to say stays silent. */
  function ReplyAt(device: seq<Reply>, j: nat): Reply {
    if j < |device| then device[j] else Arrivals([])
  }

  /**
   * The record of the `j`-th exchange of a run over `words`: round
   * `j / |words| + 1`, index `j % |words|`, the request of that word and the
   * classification of what the reader collected.
   */
  function ExpectedRecord(words: seq<Word32>, device: seq<Reply>, rxBudget: nat, j: nat): Record
    requires |words| > 0 && ReplyAt(device, j).Arrivals?
  {
    var i := j % |words|;
    var rx := Take(Arrived(ReplyAt(device, j).chunks, rxBudget), ResponseLength);
    Classify(j / |words| + 1, i, Encode(words[i]), rx)
  }

  /** `(round, index)` of `a` comes strictly before that of `b`. */
  predicate Precedes(a: Record, b: Record) {
    a.round < b.round || (a.round == b.round && a.idx < b.idx)
  }

  predicate InOrder(records: seq<Record>) {
    forall j, k :: 0 <= j < k < |records| ==> Precedes(records[j], records[k])
  }

  /** Every record is the one its exchange should produce. */
  predicate Matches(words: seq<Word32>, device: seq<Reply>, rxBudget: nat, records: seq<Record>) {
    forall j :: 0 <= j < |records| ==>
      |words| > 0 && ReplyAt(device, j).Arrivals? && records[j] == ExpectedRecord(words, device, rxBudget, j)
  }

  /** Every record lies in a round from 1 on and before position `i` of round `round`. */
  predicate Before(records: seq<Record>, round: nat, i: nat) {
    forall j :: 0 <= j < |records| ==>
      1 <= records[j].round && (records[j].round < round || (records[j].round == round && records[j].idx < i))
  }

  lemma MatchesAppend(words: seq<Word32>, device: seq<Reply>, rxBudget: nat, records: seq<Record>, record: Record)
    requires Matches(words, device, rxBudget, records)
    requires |words| > 0 && ReplyAt(device, |records|).Arrivals?
    requires record == ExpectedRecord(words, device, rxBudget, |records|)
    ensures Matches(words, device, rxBudget, records + [record])
  {
  }

  lemma InOrderAppend(records: seq<Record>, record: Record, round: nat, i: nat)
    requires InOrder(records) && Before(records, round, i)
    requires record.round == round >= 1 && record.idx == i
    ensures InOrder(records + [record]) && Before(records + [record], round, i + 1)
  {
  }

  /** The first `i` exchanges of round `round` are logged, after all of the earlier rounds. */
  predicate RoundSoFar(words: seq<Word32>, device: seq<Reply>, rxBudget: nat, records: seq<Record>, round: nat, i: nat) {
    round >= 1 && |records| == (round - 1) * |words| + i &&
    Matches(words, device, rxBudget, records) && InOrder(records) && Before(records, round, i)
  }

  lemma RoundStep(words: seq<Word32>, device: seq<Reply>, rxBudget: nat, records: seq<Record>, round: nat, i: nat, record: Record)
    requires RoundSoFar(words, device, rxBudget, records, round, i) && i < |words|
    requires ReplyAt(device, |records|).Arrivals?
    requires record == Classify(round, i, Encode(words[i]),
      Take(Arrived(ReplyAt(device, |records|).chunks, rxBudget), ResponseLength))
    ensures RoundSoFar(words, device, rxBudget, records + [record], round, i + 1)
  {
    DivModOf(round - 1, |words|, i);
    MatchesAppend(words, device, rxBudget, records, record);
    InOrderAppend(records, record, round, i);
  }

  /**
   * One exchange: send the request of `w` (after the input buffer is reset),
   * read the response with the receive deadline and classify it.
   */
  method Exchange(round: nat, i: nat, w: Word32, chunks: seq<seq<Byte>>, rxBudget: nat) returns (record: Record)
    ensures record == Classify(round, i, Encode(w), Take(Arrived(chunks, rxBudget), ResponseLength))
  {
    var tx := Encode(w);
    var rx, _, _ := ReadExact(ResponseLength, chunks, rxBudget);
    record := Classify(round, i, tx, rx);
  }

  /**
   * One round of `run_uart_loop` (the loop over the snapshot): for each word,
   * read the stop flag, then exchange the word and log its record.
   * `records0` are the records of the earlier rounds, and
   * `round + |records0|` checkpoints have already read the flag clear.
   */
  method Round(words: seq<Word32>, round: nat, stopAt: nat, device: seq<Reply>, rxBudget: nat, records0: seq<Record>)
    returns (records: seq<Record>, gaps: nat, exit: Exit)
    requires RoundSoFar(words, device, rxBudget, records0, round, 0) && round + |records0| <= stopAt
    ensures |records0| <= |records| <= round * |words| && records[..|records0|] == records0
    ensures Matches(words, device, rxBudget, records) && InOrder(records) && Before(records, round + 1, 0)
    ensures round + |records| <= stopAt
    ensures exit == Stopped && round + |records| < stopAt ==> |records| == round * |words|
    ensures exit.Errored? ==> round + |records| < stopAt && ReplyAt(device, |records|) == PortFailure(exit.reason)
    ensures exit.Errored? ==> |records| < round * |words|
    ensures gaps == |records| - |records0|
  {
    records, gaps, exit := records0, 0, Stopped;
    var snapshot := words;
    var i := 0;
    while i < |snapshot|
      invariant i <= |snapshot| && snapshot == words
      invariant RoundSoFar(words, device, rxBudget, records, round, i)
      invariant records[..|records0|] == records0 && gaps == i
      invariant round + |records| <= stopAt
      invariant exit == Stopped
      decreases |snapshot| - i
    {
      if round + |records| == stopAt {
        break;  // the flag reads set
      }
      var reply := ReplyAt(device, |records|);
      if reply.PortFailure? {
        exit := Errored(reply.reason);
        return;
      }
      var record := Exchange(round, i, snapshot[i], reply.chunks, rxBudget);
      RoundStep(words, device, rxBudget, records, round, i, record);
      records := records + [record];
      gaps := gaps + 1;  // time.sleep(gap_word), after every word
      i := i + 1;
    }
  }

  /**
   * The body of `run_uart_loop`: open the port, then round after round read
   * the stop flag and run the round over a snapshot of the list. Returns the
   * records in the order they were logged, the number of rounds begun, the
   * numbers of `gap_word` and `gap_frame` pauses, and how the run ended.
   */
  method RunRounds(words: seq<Word32>, openError: Option<string>, stopAt: nat, device: seq<Reply>, rxBudget: nat)
    returns (records: seq<Record>, rounds: nat, wordGaps: nat, frameGaps: nat, exit: Exit)
    ensures |records| > 0 ==> |words| > 0
    ensures Matches(words, device, rxBudget, records)
    ensures InOrder(records)
    ensures Before(records, rounds + 1, 0)
    ensures rounds > 0 ==> (rounds - 1) * |words| <= |records| <= rounds * |words|
    ensures rounds == 0 ==> records == []
    ensures openError.Some? ==> rounds == 0 && exit == Errored(openError.value)
    ensures exit == Stopped ==> rounds + |records| == stopAt
    ensures exit.Errored? && openError.None? ==>
      rounds + |records| < stopAt && |records| < rounds * |words| &&
      ReplyAt(device, |records|) == PortFailure(exit.reason)
    ensures wordGaps == |records|
    ensures exit == Stopped ==> frameGaps == rounds
    ensures exit.Errored? ==> frameGaps + 1 == rounds || (openError.Some? && frameGaps == 0)
  {
    records, rounds, wordGaps, frameGaps, exit := [], 0, 0, 0, Stopped;
    if openError.Some? {
      exit := Errored(openError.value);
      return;
    }
    while rounds + |records| < stopAt
      invariant rounds + |records| <= stopAt && wordGaps == |records| && frameGaps == rounds
      invariant rounds > 0 ==> (rounds - 1) * |words| <= |records| <= rounds * |words|
      invariant rounds == 0 ==> records == []
      invariant rounds + |records| < stopAt ==> |records| == rounds * |words|
      invariant Matches(words, device, rxBudget, records)
      invariant InOrder(records) && Before(records, rounds + 1, 0)
      invariant exit == Stopped
      decreases stopAt - rounds - |records|
    {
      rounds := rounds + 1;  // the flag read clear at the top of the round
      assert RoundSoFar(words, device, rxBudget, records, rounds, 0);
      var gaps, roundExit;
      records, gaps, roundExit := Round(words, rounds, stopAt, device, rxBudget, records);
      wordGaps := wordGaps + gaps;
      if roundExit.Errored? {
        exit := roundExit;
        return;
      }
      frameGaps := frameGaps + 1;  // time.sleep(gap_frame), after a round the flag ended too
    }
  }

  /** Record `j` of a run is word `j % |words|` of round `j / |words| + 1`: a completed round has no gaps. */
  lemma RecordPosition(words: seq<Word32>, device: seq<Reply>, rxBudget: nat, records: seq<Record>, j: nat)
    requires Matches(words, device, rxBudget, records) && j < |records|
    ensures records[j].round == j / |words| + 1 && records[j].idx == j % |words|
    ensures records[j].tx == Encode(words[j % |words|])
  {
  }

  /** The response of an echoing device that reports `rx1`, `rx2` and two `K` statuses. */
  function EchoReply(w: Word32, rx1: Word32, rx2: Word32): (frame: seq<Byte>)
    ensures |frame| == ResponseLength
  {
    Encode(w) + Encode(rx1) + Encode(rx2) + [StatusOk, StatusOk]
  }

  /**
   * Two words, a device that answers each at once by echoing it followed by
   * `0xAAAAAAAA`, `0xBBBBBBBB`, `K`, `K`: both exchanges of round 1 pass on
   * both counts, in list order.
   */
  lemma TwoWordScenario(rxBudget: nat)
    requires rxBudget >= 1
    ensures var words: seq<Word32> := [0x0000_0001, 0x0000_0002];
      var device := [Arrivals([EchoReply(1, 0xAAAA_AAAA, 0xBBBB_BBBB)]), Arrivals([EchoReply(2, 0xAAAA_AAAA, 0xBBBB_BBBB)])];
      forall j | 0 <= j < 2 ::
        var r := ExpectedRecord(words, device, rxBudget, j);
        r.Full? && r.round == 1 && r.idx == j && r.echo == Encode(words[j]) && r.pass1 && r.pass2
  {
    var words: seq<Word32> := [0x0000_0001, 0x0000_0002];
    var device := [Arrivals([EchoReply(1, 0xAAAA_AAAA, 0xBBBB_BBBB)]), Arrivals([EchoReply(2, 0xAAAA_AAAA, 0xBBBB_BBBB)])];
    forall j | 0 <= j < 2
      ensures var r := ExpectedRecord(words, device, rxBudget, j);
        r.Full? && r.round == 1 && r.idx == j && r.echo == Encode(words[j]) && r.pass1 && r.pass2
    {
      var frame := EchoReply(words[j], 0xAAAA_AAAA, 0xBBBB_BBBB);
      assert ReplyAt(device, j).chunks == Silence(0) + [frame];
      DelayedReply(ResponseLength, 0, frame, rxBudget);
      assert Take(frame, ResponseLength) == frame;
      EchoWithTwoK(1, j, words[j], 0xAAAA_AAAA, 0xBBBB_BBBB);
    }
  }

  /** The list left after `del words[idx]`. */
  function RemoveAt(s: seq<Word32>, idx: nat): (r: seq<Word32>)
    requires idx < |s|
    ensures |r| == |s| - 1
    ensures forall j :: 0 <= j < idx ==> r[j] == s[j]
    ensures forall j :: idx <= j < |r| ==> r[j] == s[j + 1]
  {
    s[..idx] + s[idx + 1..]
  }

  /** Deleting one entry removes exactly that word once and nothing else. */
  lemma RemoveAtMultiset(s: seq<Word32>, idx: nat)
    requires idx < |s|
    ensures multiset(s) == multiset(RemoveAt(s, idx)) + multiset{s[idx]}
  {
    assert s == s[..idx] + [s[idx]] + s[idx + 1..];
  }

  class App {
    var words: seq<Word32>
    var workerAlive: bool
    var stopFlag: bool

    constructor ()
      ensures words == [] && !workerAlive && !stopFlag
    {
      words, workerAlive, stopFlag := [], false, false;
    }

    /**
     * `add_codes`: parse the entered lines and append their words, all or
     * nothing. Returns the words added or why the batch was refused.
     */
    method AddCodes(lines: seq<string>) returns (outcome: Result<seq<Word32>, BatchError>)
      modifies this`words
      ensures outcome == ParseBatch(lines)
      ensures words == if outcome.Ok? then old(words) + outcome.value else old(words)
    {
      var newWords: seq<Word32> := [];
      var k := 0;
      assert lines[k..] == lines;
      PrependNothing(ParseLines(lines));
      while k < |lines|
        invariant k <= |lines|
        invariant ParseLines(lines) == Prepend(newWords, ParseLines(lines[k..]))
        invariant words == old(words)
      {
        assert lines[k..][0] == lines[k] && lines[k..][1..] == lines[k + 1..];
        var line := Strip(lines[k]);
        if line == [] || line[0] == '#' {
          assert ParseLines(lines[k..]) == ParseLines(lines[k + 1..]);
          k := k + 1;
          continue;
        }
        var r := ParseHex32(line);
        if r.Err? {
          assert ParseLines(lines[k..]) == Err(BadLine(line, r.error));
          outcome := Err(BadLine(line, r.error));
          return;
        }
        assert ParseLines(lines[k..]) == Prepend([r.value], ParseLines(lines[k + 1..]));
        PrependPrepend(newWords, r.value, ParseLines(lines[k + 1..]));
        newWords := newWords + [r.value];
        k := k + 1;
      }
      assert lines[k..] == [] && newWords + [] == newWords;
      assert ParseLines(lines) == Ok(newWords);
      if newWords == [] {
        outcome := Err(NoValidWords);
        return;
      }
      words := words + newWords;
      outcome := Ok(newWords);
    }

    /**
     * `import_from_file`: `None` when no file was chosen or it could not be
     * read (the list is left as it is), otherwise the file's lines go through
     * the same batch rule as `add_codes`.
     */
    method ImportFromFile(file: Option<seq<string>>) returns (outcome: Option<Result<seq<Word32>, BatchError>>)
      modifies this`words
      ensures file.None? ==> outcome.None? && words == old(words)
      ensures file.Some? ==> outcome == Some(ParseBatch(file.value))
      ensures words == if outcome.Some? && outcome.value.Ok? then old(words) + outcome.value.value else old(words)
    {
      if file.None? {
        return None;
      }
      var r := AddCodes(file.value);
      outcome := Some(r);
    }

    /** `delete_selected`: remove the selected entry; nothing selected leaves the list alone. */
    method DeleteSelected(selection: Option<nat>) returns (deleted: bool)
      modifies this`words
      ensures deleted <==> selection.Some? && selection.value < |old(words)|
      ensures deleted ==> words == RemoveAt(old(words), selection.value)
      ensures !deleted ==> words == old(words)
    {
      if selection.None? || selection.value >= |words| {
        return false;
      }
      words := RemoveAt(words, selection.value);
      deleted := true;
    }

    /** `clear_all`. */
    method ClearAll()
      modifies this`words
      ensures words == []
    {
      words := [];
    }

    /** `start`: refused while a worker runs or when the list is empty; otherwise clears the flag and starts one. */
    method Start() returns (outcome: StartOutcome)
      modifies this`workerAlive, this`stopFlag
      ensures old(workerAlive) ==> outcome == AlreadyRunning
      ensures !old(workerAlive) && words == [] ==> outcome == EmptyList
      ensures !old(workerAlive) && words != [] ==> outcome == Started
      ensures outcome == Started ==> workerAlive && !stopFlag
      ensures outcome != Started ==> workerAlive == old(workerAlive) && stopFlag == old(stopFlag)
    {
      if workerAlive {
        return AlreadyRunning;
      }
      if words == [] {
        return EmptyList;
      }
      stopFlag := false;
      workerAlive := true;
      outcome := Started;
    }

    /** `stop`: set the flag the worker polls. */
    method Stop()
      modifies this`stopFlag
      ensures stopFlag
    {
      stopFlag := true;
    }

    /**
     * The worker thread running `run_uart_loop` to its end. A flag already
     * set when the worker begins is read set at the first checkpoint.
     */
    method RunUartLoop(openError: Option<string>, stopAt: nat, device: seq<Reply>, rxBudget: nat)
      returns (records: seq<Record>, rounds: nat, wordGaps: nat, frameGaps: nat, exit: Exit)
      modifies this`workerAlive
      ensures !workerAlive
      ensures Matches(words, device, rxBudget, records) && InOrder(records) && Before(records, rounds + 1, 0)
      ensures rounds > 0 ==> (rounds - 1) * |words| <= |records| <= rounds * |words|
      ensures rounds == 0 ==> records == []
      ensures openError.Some? ==> rounds == 0 && exit == Errored(openError.value)
      ensures exit == Stopped ==> rounds + |records| == (if old(stopFlag) then 0 else stopAt)
      ensures exit.Errored? && openError.None? ==>
        rounds + |records| < (if old(stopFlag) then 0 else stopAt) && |records| < rounds * |words| &&
        ReplyAt(device, |records|) == PortFailure(exit.reason)
      ensures wordGaps == |records|
      ensures exit == Stopped ==> frameGaps == rounds
      ensures exit.Errored? ==> frameGaps + 1 == rounds || (openError.Some? && frameGaps == 0)
      ensures old(stopFlag) ==> records == [] && (openError.None? ==> exit == Stopped)
    {
      var effectiveStop := if stopFlag then 0 else stopAt;
      records, rounds, wordGaps, frameGaps, exit := RunRounds(words, openError, effectiveStop, device, rxBudget);
      workerAlive := false;
    }
  }

  /** A second `start` without the worker ending in between is refused and changes nothing. */
  method StartTwice(app: App) returns (first: StartOutcome, second: StartOutcome)
    requires !app.workerAlive && app.words != []
    modifies app
    ensures first == Started && second == AlreadyRunning
    ensures app.workerAlive && !app.stopFlag && app.words == old(app.words)
  {
    first := app.Start();
    second := app.Start();
  }
}
