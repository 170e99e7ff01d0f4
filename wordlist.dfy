/**
 * The line filter shared by manual entry (`add_codes`) and file import
 * (`import_from_file`): each line is stripped; blank lines and lines that
 * start with `#` are skipped; every other line must parse as a command word.
 * The batch is all or nothing: the first bad line refuses it, and so does a
 * batch with no word at all.
 */
module WordList {
  import opened Results
  import opened Hex32

  /** Why a batch was refused. */
  datatype BatchError =
    | BadLine(line: string, reason: ParseError)  // the stripped line and why it failed
    | NoValidWords

  predicate Skipped(line: string) {
    var t := Strip(line);
    t == [] || t[0] == '#'
  }

  /** The stripped lines that are parsed, in their original order. */
  function Kept(lines: seq<string>): (k: seq<string>)
    ensures |k| <= |lines|
    ensures forall i :: 0 <= i < |k| ==> k[i] != [] && k[i][0] != '#'
  {
    if lines == [] then []
    else if Skipped(lines[0]) then Kept(lines[1..])
    else [Strip(lines[0])] + Kept(lines[1..])
  }

  /** The words of all parsed lines, or the first line that fails to parse. */
  function ParseLines(lines: seq<string>): Result<seq<Word32>, BatchError> {
    if lines == [] then Ok([])
    else if Skipped(lines[0]) then ParseLines(lines[1..])
    else
      var line := Strip(lines[0]);
      match ParseHex32(line)
      case Err(e) => Err(BadLine(line, e))
      case Ok(w) => Prepend([w], ParseLines(lines[1..]))
  }

  /** The words a batch adds, or why it is refused. */
  function ParseBatch(lines: seq<string>): Result<seq<Word32>, BatchError> {
    match ParseLines(lines)
    case Err(e) => Err(e)
    case Ok(ws) => if ws == [] then Err(NoValidWords) else Ok(ws)
  }

  /** Pass the words already collected in front of a parse result. */
  function Prepend(done: seq<Word32>, rest: Result<seq<Word32>, BatchError>): Result<seq<Word32>, BatchError> {
    match rest
    case Ok(ws) => Ok(done + ws)
    case Err(e) => Err(e)
  }

  lemma PrependNothing(rest: Result<seq<Word32>, BatchError>)
    ensures Prepend([], rest) == rest
  {
    if rest.Ok? {
      assert [] + rest.value == rest.value;
    }
  }

  lemma PrependPrepend(done: seq<Word32>, w: Word32, rest: Result<seq<Word32>, BatchError>)
    ensures Prepend(done, Prepend([w], rest)) == Prepend(done + [w], rest)
  {
    if rest.Ok? {
      assert done + ([w] + rest.value) == done + [w] + rest.value;
    }
  }

  /** Parsing lines that are all kept: every one must parse. */
  function ParseAll(kept: seq<string>): Result<seq<Word32>, BatchError> {
    if kept == [] then Ok([])
    else
      match ParseHex32(kept[0])
      case Err(e) => Err(BadLine(kept[0], e))
      case Ok(w) => Prepend([w], ParseAll(kept[1..]))
  }

  /** Skipping lines first and then parsing the rest is what the line loop does. */
  lemma {:induction false} ParseLinesKept(lines: seq<string>)
    ensures ParseLines(lines) == ParseAll(Kept(lines))
  {
    if lines != [] {
      ParseLinesKept(lines[1..]);
      if !Skipped(lines[0]) {
        var k := Kept(lines);
        assert k == [Strip(lines[0])] + Kept(lines[1..]);
        assert k[0] == Strip(lines[0]) && k[1..] == Kept(lines[1..]);
      }
    }
  }

  /** The kept lines all parse and give the words, line by line in order. */
  predicate AllParse(kept: seq<string>, ws: seq<Word32>) {
    |ws| == |kept| && forall i :: 0 <= i < |kept| ==> ParseHex32(kept[i]) == Ok(ws[i])
  }

  /** Line `i` is the first kept line that fails, with that reason. */
  predicate FirstFailure(kept: seq<string>, i: nat, e: ParseError) {
    i < |kept| && ParseHex32(kept[i]) == Err(e) &&
    forall j :: 0 <= j < i ==> ParseHex32(kept[j]).Ok?
  }

  lemma {:induction false} ParseAllWords(kept: seq<string>)
    requires ParseAll(kept).Ok?
    ensures AllParse(kept, ParseAll(kept).value)
  {
    if kept != [] {
      ParseAllWords(kept[1..]);
      var ws := ParseAll(kept).value;
      assert ws == [ParseHex32(kept[0]).value] + ParseAll(kept[1..]).value;
      forall m | 0 < m < |kept|
        ensures ParseHex32(kept[m]) == Ok(ws[m])
      {
        assert kept[m] == kept[1..][m - 1];
      }
    }
  }

  /** On success, the words are those of the kept lines, line by line in order. */
  lemma ParseLinesWords(lines: seq<string>)
    requires ParseLines(lines).Ok?
    ensures AllParse(Kept(lines), ParseLines(lines).value)
  {
    ParseLinesKept(lines);
    ParseAllWords(Kept(lines));
  }

  /** A line that parses, put in front, moves the first failure back by one. */
  lemma FirstFailureCons(line: string, kept: seq<string>, j: nat, e: ParseError)
    requires ParseHex32(line).Ok? && FirstFailure(kept, j, e)
    ensures FirstFailure([line] + kept, j + 1, e) && ([line] + kept)[j + 1] == kept[j]
  {
    var k := [line] + kept;
    forall m | 0 < m <= j
      ensures ParseHex32(k[m]).Ok?
    {
      assert k[m] == kept[m - 1];
    }
  }

  lemma {:induction false} ParseAllFailure(kept: seq<string>) returns (i: nat)
    requires ParseAll(kept).Err?
    ensures ParseAll(kept).error.BadLine?
    ensures FirstFailure(kept, i, ParseAll(kept).error.reason) && kept[i] == ParseAll(kept).error.line
  {
    if ParseHex32(kept[0]).Err? {
      i := 0;
    } else {
      var j := ParseAllFailure(kept[1..]);
      assert [kept[0]] + kept[1..] == kept;
      FirstFailureCons(kept[0], kept[1..], j, ParseAll(kept[1..]).error.reason);
      i := j + 1;
    }
  }

  /** On failure, the reported line is the first kept line that does not parse; `i` is its position. */
  lemma ParseLinesFailure(lines: seq<string>) returns (i: nat)
    requires ParseLines(lines).Err?
    ensures ParseLines(lines).error.BadLine?
    ensures FirstFailure(Kept(lines), i, ParseLines(lines).error.reason)
    ensures Kept(lines)[i] == ParseLines(lines).error.line
  {
    ParseLinesKept(lines);
    i := ParseAllFailure(Kept(lines));
  }

  /** Parsing fails exactly when some kept line fails to parse. */
  lemma {:induction false} ParseLinesOkIff(lines: seq<string>)
    ensures ParseLines(lines).Ok? <==> forall i :: 0 <= i < |Kept(lines)| ==> ParseHex32(Kept(lines)[i]).Ok?
  {
    if ParseLines(lines).Ok? {
      ParseLinesWords(lines);
    } else {
      var i := ParseLinesFailure(lines);
      assert !ParseHex32(Kept(lines)[i]).Ok?;
    }
  }

  /**
   * The batch rule: refused when a kept line fails or no line is kept;
   * otherwise the words of the kept lines, in order.
   */
  lemma BatchMeaning(lines: seq<string>)
    ensures ParseBatch(lines).Ok? <==>
      Kept(lines) != [] && forall i :: 0 <= i < |Kept(lines)| ==> ParseHex32(Kept(lines)[i]).Ok?
    ensures ParseBatch(lines).Ok? ==> AllParse(Kept(lines), ParseBatch(lines).value)
  {
    ParseLinesOkIff(lines);
    if ParseLines(lines).Ok? {
      ParseLinesWords(lines);
    }
  }

  /** Blank and comment lines may be added or removed anywhere without changing the batch. */
  lemma {:induction false} SkippedLinesIgnored(a: seq<string>, line: string, b: seq<string>)
    requires Skipped(line)
    ensures ParseLines(a + [line] + b) == ParseLines(a + b)
  {
    if a == [] {
      assert a + [line] + b == [line] + b;
      assert ([line] + b)[1..] == b;
      assert a + b == b;
    } else {
      assert (a + [line] + b)[0] == a[0] && (a + [line] + b)[1..] == a[1..] + [line] + b;
      assert (a + b)[0] == a[0] && (a + b)[1..] == a[1..] + b;
      SkippedLinesIgnored(a[1..], line, b);
    }
  }
}
