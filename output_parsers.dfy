/** The output parsers of langchain_app/output_parsers/output_parsers.py:
    their format instructions, the key/value parser, the row filter and
    header zip of the CSV parser, and the retry and error text of the JSON
    parser. The tokenisers (`json.loads`, `csv.reader`, `re`) are inputs. */
module OutputParsers {
  import opened Py
  import opened Text

  /** A parser object, with the constructor argument each class keeps. */
  datatype Parser =
    | Base
    | Json
    | KeyValue(pairDelimiter: string)
    | Regex(pattern: string)
    | Csv(hasHeader: bool)

  /** The delimiter `KeyValueOutputParser()` uses when given none. */
  const DEFAULT_DELIMITER: string := ":"

  const REGEX_INSTRUCTIONS: string := "Response should match regex: "

  /** `get_format_instructions()`: a fixed text per class; only the regex
      parser's mentions its pattern and only the CSV parser's depends on its
      argument. */
  function FormatInstructions(p: Parser): (r: string)
    ensures r == "" <==> p.Base?
    ensures p.Regex? ==> |REGEX_INSTRUCTIONS| <= |r| && r[..|REGEX_INSTRUCTIONS|] == REGEX_INSTRUCTIONS
                         && r[|REGEX_INSTRUCTIONS|..] == p.pattern
  {
    match p
    case Base => ""
    case Json => "Respond with valid JSON."
    case KeyValue(_) => "Respond with one key: value pair per line."
    case Regex(pattern) => REGEX_INSTRUCTIONS + pattern
    case Csv(hasHeader) =>
      if hasHeader then "Respond with CSV including a header row." else "Respond with CSV rows."
  }

  /** The CSV instructions tell whether a header row is expected, and the
      delimiter of a key/value parser never shows in its instructions. */
  lemma InstructionsArguments(d1: string, d2: string)
    ensures FormatInstructions(Csv(true)) != FormatInstructions(Csv(false))
    ensures FormatInstructions(KeyValue(d1)) == FormatInstructions(KeyValue(d2))
  {
    assert |FormatInstructions(Csv(true))| != |FormatInstructions(Csv(false))|;
  }

  // ---------------------------------------------------------------------
  // KeyValueOutputParser

  /** `line.split(delim, 1)`: the text before the first occurrence of the
      delimiter and the text after it. */
  function SplitOnce(line: string, delim: string): (kv: (string, string))
    requires delim != [] && Contains(line, delim)
    ensures line == kv.0 + delim + kv.1
    ensures forall j: nat :: j < |kv.0| ==> !OccursAt(line, delim, j)
  {
    var i := Find(line, delim).value;
    assert line == line[..i] + line[i..i + |delim|] + line[i + |delim|..];
    (line[..i], line[i + |delim|..])
  }

  /** A line the loop turns into an entry. */
  predicate IsPairLine(line: string, delim: string) {
    delim != [] && Strip(line) != "" && Contains(line, delim)
  }

  /** The entry a pair line gives: both halves stripped. */
  function Entry(line: string, delim: string): (kv: (string, string))
    requires IsPairLine(line, delim)
    ensures Trimmed(kv.0) && Trimmed(kv.1)
  {
    var parts := SplitOnce(line, delim);
    (Strip(parts.0), Strip(parts.1))
  }

  /** What one pass of the loop body does with a line. */
  datatype Step = Skip | Fail | Put(key: string, value: string)

  /** The loop body's decision for one line: blank lines and lines without
      the delimiter are passed over; otherwise `split` raises on an empty
      delimiter, or the stripped halves are assigned. */
  function LineStep(line: string, delim: string): (st: Step)
    ensures st.Fail? <==> delim == "" && Strip(line) != ""
    ensures st.Put? <==> IsPairLine(line, delim)
    ensures st.Put? ==> (st.key, st.value) == Entry(line, delim)
  {
    ContainsEmpty(line);
    if Strip(line) == "" || !Contains(line, delim) then Skip
    else if delim == "" then Fail
    else Put(Entry(line, delim).0, Entry(line, delim).1)
  }

  /** The dictionary after one more pass, or the exception that ended the loop. */
  function Apply(acc: Attempt<Pairs>, st: Step): Attempt<Pairs> {
    match acc
    case Raised(e) => Raised(e)
    case Returned(out) =>
      match st
      case Skip => Returned(out)
      case Fail => Raised("empty separator")
      case Put(k, v) => Returned(DictSet(out, k, v))
  }

  /** The loop run over a sequence of decisions, starting from `{}`. */
  function Run(steps: seq<Step>): (r: Attempt<Pairs>)
    ensures r.Returned? ==> UniqueKeys(r.value)
    ensures r.Raised? ==> r.error == "empty separator"
  {
    if steps == [] then Returned([])
    else
      var n := |steps| - 1;
      var acc := Run(steps[..n]);
      assert acc.Returned? && steps[n].Put? ==> UniqueKeys(DictSet(acc.value, steps[n].key, steps[n].value)) by {
        if acc.Returned? && steps[n].Put? { DictSetUnique(acc.value, steps[n].key, steps[n].value); }
      }
      Apply(acc, steps[n])
  }

  lemma RunSnoc(steps: seq<Step>, st: Step)
    ensures Run(steps + [st]) == Apply(Run(steps), st)
  {
    assert (steps + [st])[..|steps|] == steps;
  }

  /** The decisions for the lines, in order. */
  function Steps(lines: seq<string>, delim: string): (st: seq<Step>)
    ensures |st| == |lines|
  {
    seq(|lines|, i requires 0 <= i < |lines| => LineStep(lines[i], delim))
  }

  lemma StepsAt(lines: seq<string>, delim: string)
    ensures forall i :: 0 <= i < |lines| ==> Steps(lines, delim)[i] == LineStep(lines[i], delim)
  {
  }

  lemma StepsAppend(x: seq<string>, y: seq<string>, delim: string)
    ensures Steps(x + y, delim) == Steps(x, delim) + Steps(y, delim)
  {
    var l, r := Steps(x + y, delim), Steps(x, delim) + Steps(y, delim);
    forall i | 0 <= i < |l| ensures l[i] == r[i] {
      if i < |x| {
        assert (x + y)[i] == x[i];
      } else {
        assert (x + y)[i] == y[i - |x|];
      }
    }
  }

  /** The dictionary the loop has built after `lines`, or the error it raised. */
  function ParseLines(lines: seq<string>, delim: string): Attempt<Pairs> {
    Run(Steps(lines, delim))
  }

  lemma ParseLinesStep(lines: seq<string>, delim: string, i: nat)
    requires i < |lines|
    ensures ParseLines(lines[..i + 1], delim) == Apply(ParseLines(lines[..i], delim), LineStep(lines[i], delim))
  {
    assert Steps(lines[..i + 1], delim) == Steps(lines[..i], delim) + [LineStep(lines[i], delim)];
    RunSnoc(Steps(lines[..i], delim), LineStep(lines[i], delim));
  }

  /** `KeyValueOutputParser(delim).parse(text)`. */
  function KeyValueParse(text: string, delim: string): Attempt<Pairs> {
    ParseLines(SplitLines(text), delim)
  }

  /** The parser's loop: each line of `text` updates the dictionary in place. */
  method ParseKeyValue(text: string, delim: string) returns (r: Attempt<Pairs>)
    ensures r == KeyValueParse(text, delim)
  {
    var lines := SplitLines(text);
    var out: Pairs := [];
    var i := 0;
    while i < |lines|
      invariant i <= |lines|
      invariant ParseLines(lines[..i], delim) == Returned(out)
    {
      var line := lines[i];
      ParseLinesStep(lines, delim, i);
      if Strip(line) == "" {
        i := i + 1;
        continue;
      }
      if !Contains(line, delim) {
        i := i + 1;
        continue;
      }
      if delim == "" {
        RaisedPersists(lines, delim, i + 1);
        return Raised("empty separator");
      }
      var parts := SplitOnce(line, delim);
      out := DictSet(out, Strip(parts.0), Strip(parts.1));
      i := i + 1;
    }
    assert lines[..i] == lines;
    r := Returned(out);
  }

  /** Once the loop has raised, the parse as a whole raises. */
  lemma {:induction false} RaisedPersists(lines: seq<string>, delim: string, i: nat)
    requires i <= |lines| && ParseLines(lines[..i], delim).Raised?
    ensures ParseLines(lines, delim).Raised?
    decreases |lines| - i
  {
    if i < |lines| {
      ParseLinesStep(lines, delim, i);
      RaisedPersists(lines, delim, i + 1);
    } else {
      assert lines[..i] == lines;
    }
  }

  /** A run raises exactly when one of its decisions is to raise. */
  lemma {:induction false} RunRaised(steps: seq<Step>)
    ensures Run(steps).Raised? <==> exists j :: 0 <= j < |steps| && steps[j].Fail?
  {
    if steps != [] {
      var n := |steps| - 1;
      RunRaised(steps[..n]);
      assert forall j :: 0 <= j < n ==> steps[..n][j] == steps[j];
    }
  }

  lemma SnocMiddle<T>(a: seq<T>, x: T, b: seq<T>)
    requires b != []
    ensures a + [x] + b == (a + [x] + b[..|b| - 1]) + [b[|b| - 1]]
    ensures a + b == (a + b[..|b| - 1]) + [b[|b| - 1]]
  {
    assert b == b[..|b| - 1] + [b[|b| - 1]];
  }

  /** A passed-over line may be deleted from anywhere in the run. */
  lemma {:induction false} RunSkip(a: seq<Step>, b: seq<Step>)
    ensures Run(a + [Skip] + b) == Run(a + b)
    decreases |b|
  {
    if b == [] {
      assert a + [Skip] + b == a + [Skip] && a + b == a;
      RunSnoc(a, Skip);
    } else {
      var b', last := b[..|b| - 1], b[|b| - 1];
      RunSkip(a, b');
      SnocMiddle(a, Skip, b);
      RunSnoc(a + [Skip] + b', last);
      RunSnoc(a + b', last);
    }
  }

  /** The keys the assignments among `steps` name. */
  function PutKeys(steps: seq<Step>): set<string> {
    set j | 0 <= j < |steps| && steps[j].Put? :: steps[j].key
  }

  lemma PutKeysSnoc(steps: seq<Step>, st: Step)
    ensures PutKeys(steps + [st]) == PutKeys(steps) + (if st.Put? then {st.key} else {})
  {
    var s := steps + [st];
    forall x | x in PutKeys(s) ensures x in PutKeys(steps) + (if st.Put? then {st.key} else {}) {
      var j :| 0 <= j < |s| && s[j].Put? && s[j].key == x;
      if j < |steps| { assert steps[j] == s[j]; }
    }
    forall x | x in PutKeys(steps) ensures x in PutKeys(s) {
      var j :| 0 <= j < |steps| && steps[j].Put? && steps[j].key == x;
      assert s[j] == steps[j];
    }
    assert s[|steps|] == st;
  }

  /** The dictionary's keys are exactly the keys assigned. */
  lemma {:induction false} RunKeys(steps: seq<Step>)
    requires Run(steps).Returned?
    ensures KeySet(Run(steps).value) == PutKeys(steps)
  {
    if steps != [] {
      var n := |steps| - 1;
      assert steps == steps[..n] + [steps[n]];
      RunKeys(steps[..n]);
      PutKeysSnoc(steps[..n], steps[n]);
    }
  }

  /** The value of the last assignment to `k`, if any. */
  function LastPut(steps: seq<Step>, k: string): Option<string> {
    if steps == [] then None
    else
      var n := |steps| - 1;
      if steps[n].Put? && steps[n].key == k then Some(steps[n].value) else LastPut(steps[..n], k)
  }

  /** Reading a key gives the value of its last assignment. */
  lemma {:induction false} RunGet(steps: seq<Step>, k: string)
    requires Run(steps).Returned?
    ensures DictGet(Run(steps).value, k) == LastPut(steps, k)
  {
    if steps != [] {
      var n := |steps| - 1;
      RunGet(steps[..n], k);
      if steps[n].Put? {
        DictSetGet(Run(steps[..n]).value, steps[n].key, steps[n].value, k);
      }
    }
  }

  /** An assignment with no later assignment to the same key is the last one. */
  lemma {:induction false} LastPutAt(steps: seq<Step>, j: nat)
    requires j < |steps| && steps[j].Put?
    requires forall m :: j < m < |steps| && steps[m].Put? ==> steps[m].key != steps[j].key
    ensures LastPut(steps, steps[j].key) == Some(steps[j].value)
  {
    var n := |steps| - 1;
    if j < n {
      assert forall m :: j < m < n ==> steps[..n][m] == steps[m];
      LastPutAt(steps[..n], j);
    }
  }

  /** A blank line or a line without the delimiter may be deleted from
      anywhere in the input without changing the outcome. */
  lemma SkippedLine(a: seq<string>, line: string, b: seq<string>, delim: string)
    requires Strip(line) == "" || !Contains(line, delim)
    ensures ParseLines(a + [line] + b, delim) == ParseLines(a + b, delim)
  {
    ContainsEmpty(line);
    assert Steps([line], delim) == [Skip];
    StepsAppend(a, [line], delim);
    StepsAppend(a + [line], b, delim);
    StepsAppend(a, b, delim);
    RunSkip(Steps(a, delim), Steps(b, delim));
  }

  /** The parse raises `ValueError("empty separator")` exactly when the
      delimiter is empty and some line is not blank; with an empty
      delimiter and only blank lines it returns `{}`. */
  lemma ParseRaises(lines: seq<string>, delim: string)
    ensures ParseLines(lines, delim).Raised? <==> delim == "" && exists j :: 0 <= j < |lines| && Strip(lines[j]) != ""
    ensures ParseLines(lines, delim).Raised? ==> ParseLines(lines, delim).error == "empty separator"
    ensures delim == "" && ParseLines(lines, delim).Returned? ==> ParseLines(lines, delim).value == []
  {
    var steps := Steps(lines, delim);
    StepsAt(lines, delim);
    RunRaised(steps);
    if delim == "" && Run(steps).Returned? {
      RunKeys(steps);
      assert forall j :: 0 <= j < |steps| ==> !steps[j].Put?;
      NoKeysEmpty(Run(steps).value);
    }
  }

  lemma NoKeysEmpty(d: Pairs)
    ensures KeySet(d) == {} ==> d == []
  {
    if d != [] {
      assert d[0].0 in KeySet(d);
    }
  }

  /** The keys of the dictionary are exactly the stripped left-hand sides
      of the pair lines. */
  lemma PairLineKeys(lines: seq<string>, delim: string)
    requires ParseLines(lines, delim).Returned?
    ensures KeySet(ParseLines(lines, delim).value)
            == set j | 0 <= j < |lines| && IsPairLine(lines[j], delim) :: Entry(lines[j], delim).0
  {
    var steps := Steps(lines, delim);
    StepsAt(lines, delim);
    RunKeys(steps);
  }

  /** `KeyValueOutputParser()` with its default `":"` never raises, and its
      keys are the stripped texts before the first colon of the non-blank
      lines that hold one. */
  lemma DefaultDelimiterParses(text: string)
    ensures KeyValueParse(text, DEFAULT_DELIMITER).Returned?
    ensures var lines := SplitLines(text);
            KeySet(KeyValueParse(text, DEFAULT_DELIMITER).value)
            == set j | 0 <= j < |lines| && IsPairLine(lines[j], DEFAULT_DELIMITER) :: Entry(lines[j], DEFAULT_DELIMITER).0
  {
    ParseRaises(SplitLines(text), DEFAULT_DELIMITER);
    PairLineKeys(SplitLines(text), DEFAULT_DELIMITER);
  }

  /** A later line with the same key overwrites the earlier value: a key
      reads as the value of the last pair line that has it. */
  lemma LastValueWins(lines: seq<string>, delim: string, j: nat)
    requires j < |lines| && IsPairLine(lines[j], delim)
    requires forall m :: j < m < |lines| && IsPairLine(lines[m], delim) ==>
               Entry(lines[m], delim).0 != Entry(lines[j], delim).0
    ensures ParseLines(lines, delim).Returned?
    ensures DictGet(ParseLines(lines, delim).value, Entry(lines[j], delim).0) == Some(Entry(lines[j], delim).1)
  {
    var steps := Steps(lines, delim);
    NoFailStep(lines, delim);
    RunRaised(steps);
    LaterSteps(lines, delim, j);
    LastPutAt(steps, j);
    RunGet(steps, Entry(lines[j], delim).0);
  }

  lemma NoFailStep(lines: seq<string>, delim: string)
    requires delim != ""
    ensures forall m :: 0 <= m < |lines| ==> !Steps(lines, delim)[m].Fail?
  {
    StepsAt(lines, delim);
  }

  lemma LaterSteps(lines: seq<string>, delim: string, j: nat)
    requires j < |lines| && IsPairLine(lines[j], delim)
    requires forall m :: j < m < |lines| && IsPairLine(lines[m], delim) ==>
               Entry(lines[m], delim).0 != Entry(lines[j], delim).0
    ensures var steps := Steps(lines, delim);
            && steps[j] == Put(Entry(lines[j], delim).0, Entry(lines[j], delim).1)
            && forall m :: j < m < |steps| && steps[m].Put? ==> steps[m].key != steps[j].key
  {
    StepsAt(lines, delim);
  }

  /** The line is split at the first delimiter only, so the value may itself
      hold the delimiter. */
  lemma SplitAtFirst(key: string, value: string, c: char)
    requires c !in key
    ensures var line := key + [c] + value;
            Contains(line, [c]) && SplitOnce(line, [c]) == (key, value)
  {
    var line := key + [c] + value;
    assert OccursAt(line, [c], |key|) by { assert line[|key|..|key| + 1] == [c]; }
    var kv := SplitOnce(line, [c]);
    assert line[|kv.0|] == (kv.0 + [c] + kv.1)[|kv.0|] == c;
    assert forall j :: 0 <= j < |key| ==> line[j] == key[j];
    assert |kv.0| == |key|;
    assert kv.0 == line[..|key|] == key;
    assert kv.1 == line[|key| + 1..] == value;
  }

  // ---------------------------------------------------------------------
  // CSVOutputParser

  type Row = seq<string>

  /** `any(cell.strip() for cell in row)`. */
  predicate HasContent(row: Row) {
    exists i :: 0 <= i < |row| && Strip(row[i]) != ""
  }

  /** `[row for row in rows if any(cell.strip() for cell in row)]`. */
  function ContentRows(rows: seq<Row>): (r: seq<Row>)
    ensures |r| <= |rows|
  {
    if rows == [] then []
    else
      var n := |rows| - 1;
      var init := ContentRows(rows[..n]);
      if HasContent(rows[n]) then init + [rows[n]] else init
  }

  /** Exactly the rows with a non-blank cell are kept. */
  lemma {:induction false} ContentRowsMembers(rows: seq<Row>)
    ensures forall x :: x in ContentRows(rows) <==> x in rows && HasContent(x)
  {
    if rows != [] {
      var n := |rows| - 1;
      ContentRowsMembers(rows[..n]);
      assert rows == rows[..n] + [rows[n]];
    }
  }

  /** What the filter keeps of one row. */
  function Keep(row: Row): seq<Row> {
    if HasContent(row) then [row] else []
  }

  lemma ContentRowsSnoc(rows: seq<Row>, row: Row)
    ensures ContentRows(rows + [row]) == ContentRows(rows) + Keep(row)
  {
    assert (rows + [row])[..|rows|] == rows;
  }

  /** The filter keeps the input's order: the kept rows of two consecutive
      parts are the kept rows of the first part followed by those of the
      second. */
  lemma {:induction false} ContentRowsAppend(a: seq<Row>, b: seq<Row>)
    ensures ContentRows(a + b) == ContentRows(a) + ContentRows(b)
    decreases |b|
  {
    if b == [] {
      assert a + b == a;
    } else {
      var b', last := b[..|b| - 1], b[|b| - 1];
      ContentRowsAppend(a, b');
      assert b == b' + [last];
      assert a + b == (a + b') + [last];
      ContentRowsSnoc(a + b', last);
      ContentRowsSnoc(b', last);
      AppendStep(ContentRows(a + b), ContentRows(a + b'), ContentRows(a), ContentRows(b'), ContentRows(b), Keep(last));
    }
  }

  lemma AppendStep<T>(whole: seq<T>, wholeInit: seq<T>, left: seq<T>, rightInit: seq<T>, right: seq<T>, t: seq<T>)
    requires whole == wholeInit + t && wholeInit == left + rightInit && right == rightInit + t
    ensures whole == left + right
  {
  }

  /** `zip(header, row)`: pairs up to the shorter of the two. */
  function Zip(xs: seq<string>, ys: seq<string>): (r: Pairs)
    ensures |r| == if |xs| <= |ys| then |xs| else |ys|
    ensures forall i :: 0 <= i < |r| ==> r[i] == (xs[i], ys[i])
  {
    if xs == [] || ys == [] then []
    else [(xs[0], ys[0])] + Zip(xs[1..], ys[1..])
  }

  /** `dict(pairs)`: a later pair with a key already present overwrites it. */
  function DictOf(ps: Pairs): (r: Pairs)
    ensures UniqueKeys(r)
  {
    if ps == [] then []
    else
      var n := |ps| - 1;
      var init := DictOf(ps[..n]);
      DictSetUnique(init, ps[n].0, ps[n].1);
      DictSet(init, ps[n].0, ps[n].1)
  }

  /** The value of the last pair with key `k`, if any. */
  function LastValue(ps: Pairs, k: string): Option<string> {
    if ps == [] then None
    else
      var n := |ps| - 1;
      if ps[n].0 == k then Some(ps[n].1) else LastValue(ps[..n], k)
  }

  /** In `dict(pairs)` a later pair overwrites an earlier one with the same
      key: each key reads as the value of its last pair. */
  lemma {:induction false} DictOfGet(ps: Pairs, k: string)
    ensures DictGet(DictOf(ps), k) == LastValue(ps, k)
  {
    if ps != [] {
      var n := |ps| - 1;
      DictOfGet(ps[..n], k);
      DictSetGet(DictOf(ps[..n]), ps[n].0, ps[n].1, k);
    }
  }

  /** A pair with no later pair of the same key is the last one. */
  lemma {:induction false} LastValueAt(ps: Pairs, j: nat)
    requires j < |ps|
    requires forall m :: j < m < |ps| ==> ps[m].0 != ps[j].0
    ensures LastValue(ps, ps[j].0) == Some(ps[j].1)
  {
    var n := |ps| - 1;
    if j < n {
      assert forall m :: j < m < n ==> ps[..n][m] == ps[m];
      LastValueAt(ps[..n], j);
    }
  }

  /** `dict(pairs)` has exactly the keys of the pairs. */
  lemma {:induction false} DictOfKeys(ps: Pairs)
    ensures KeySet(DictOf(ps)) == KeySet(ps)
  {
    if ps != [] {
      var n := |ps| - 1;
      DictOfKeys(ps[..n]);
      KeySetLast(ps);
    }
  }

  lemma KeySetLast(ps: Pairs)
    requires ps != []
    ensures KeySet(ps) == KeySet(ps[..|ps| - 1]) + {ps[|ps| - 1].0}
  {
    assert ps == ps[..|ps| - 1] + [ps[|ps| - 1]];
    KeySetAppend(ps[..|ps| - 1], ps[|ps| - 1]);
  }

  lemma KeySetAppend(d: Pairs, p: (string, string))
    ensures KeySet(d + [p]) == KeySet(d) + {p.0}
  {
    forall x | x in KeySet(d + [p]) ensures x in KeySet(d) + {p.0} {
      var i :| 0 <= i < |d + [p]| && (d + [p])[i].0 == x;
      if i < |d| { assert d[i].0 == x; }
    }
    forall x | x in KeySet(d) ensures x in KeySet(d + [p]) {
      var i :| 0 <= i < |d| && d[i].0 == x;
      assert (d + [p])[i].0 == x;
    }
    assert (d + [p])[|d|].0 == p.0;
  }

  /** With distinct keys, `dict` keeps every pair, in order. */
  lemma {:induction false} DictOfDistinct(ps: Pairs)
    requires UniqueKeys(ps)
    ensures DictOf(ps) == ps
  {
    if ps != [] {
      var n := |ps| - 1;
      LastKeyNew(ps);
      DictOfDistinct(ps[..n]);
      assert ps[..n] + [ps[n]] == ps;
    }
  }

  /** Splitting off the last pair of a dictionary with distinct keys: the
      rest has distinct keys and does not hold the last key. */
  lemma LastKeyNew(ps: Pairs)
    requires ps != [] && UniqueKeys(ps)
    ensures UniqueKeys(ps[..|ps| - 1])
    ensures ps[|ps| - 1].0 !in KeySet(ps[..|ps| - 1])
  {
    var n := |ps| - 1;
    var init := ps[..n];
    forall i, j | 0 <= i < j < n ensures init[i].0 != init[j].0 {
      assert init[i] == ps[i] && init[j] == ps[j];
    }
    forall i | 0 <= i < n ensures init[i].0 != ps[n].0 {
      assert init[i] == ps[i];
    }
  }

  /** What the CSV parser returns: the rows themselves, or one dict per data row. */
  datatype CsvOutput = Rows(rows: seq<Row>) | Records(records: seq<Pairs>)

  /** `[dict(zip(header, row)) for row in data]`. */
  function RecordsOf(header: Row, data: seq<Row>): (r: seq<Pairs>)
    ensures |r| == |data|
  {
    seq(|data|, i requires 0 <= i < |data| => DictOf(Zip(header, data[i])))
  }

  /** `CSVOutputParser(hasHeader).parse(text)`, where `rows` is what
      `csv.reader` read from `text.strip()`. */
  function CsvParse(rows: seq<Row>, hasHeader: bool): (r: CsvOutput)
    ensures r.Records? <==> hasHeader && ContentRows(rows) != []
    ensures r.Rows? ==> r.rows == ContentRows(rows)
    ensures r.Records? ==> |r.records| == |ContentRows(rows)| - 1
  {
    var kept := ContentRows(rows);
    if hasHeader && kept != [] then Records(RecordsOf(kept[0], kept[1..])) else Rows(kept)
  }

  /** With a header of distinct names, the record for the `i`-th data row
      pairs each header name with the cell in the same column, up to the
      shorter of the two rows; the header row gives no record. */
  lemma CsvRecord(rows: seq<Row>, i: nat)
    requires ContentRows(rows) != [] && i + 1 < |ContentRows(rows)|
    requires forall a, b :: 0 <= a < b < |ContentRows(rows)[0]| ==> ContentRows(rows)[0][a] != ContentRows(rows)[0][b]
    ensures var header, row := ContentRows(rows)[0], ContentRows(rows)[i + 1];
            CsvParse(rows, true).records[i] == Zip(header, row)
  {
    var kept := ContentRows(rows);
    assert kept[1..][i] == kept[i + 1];
    DistinctHeaderRecord(kept[0], kept[1..], i);
  }

  /** For any header, repeated names included, the record of the `i`-th data
      row has exactly the header names that have a cell in that row, and a
      name reads as the cell of its last column within the shorter row. */
  lemma CsvRecordAt(rows: seq<Row>, i: nat, j: nat)
    requires ContentRows(rows) != [] && i + 1 < |ContentRows(rows)|
    requires j < |ContentRows(rows)[0]| && j < |ContentRows(rows)[i + 1]|
    requires forall m :: j < m < |ContentRows(rows)[0]| && m < |ContentRows(rows)[i + 1]| ==>
               ContentRows(rows)[0][m] != ContentRows(rows)[0][j]
    ensures var header, row := ContentRows(rows)[0], ContentRows(rows)[i + 1];
            && KeySet(CsvParse(rows, true).records[i]) == KeySet(Zip(header, row))
            && DictGet(CsvParse(rows, true).records[i], header[j]) == Some(row[j])
  {
    var kept := ContentRows(rows);
    var header, row := kept[0], kept[i + 1];
    assert kept[1..][i] == row;
    var z := Zip(header, row);
    assert CsvParse(rows, true).records[i] == DictOf(z);
    DictOfKeys(z);
    LastValueAt(z, j);
    DictOfGet(z, header[j]);
  }

  /** With distinct header names, each record is the zip itself. */
  lemma DistinctHeaderRecord(header: Row, data: seq<Row>, i: nat)
    requires i < |data|
    requires forall a, b :: 0 <= a < b < |header| ==> header[a] != header[b]
    ensures RecordsOf(header, data)[i] == Zip(header, data[i])
  {
    var z := Zip(header, data[i]);
    assert UniqueKeys(z) by {
      forall a, b | 0 <= a < b < |z| ensures z[a].0 != z[b].0 {
        assert z[a].0 == header[a] && z[b].0 == header[b];
      }
    }
    DictOfDistinct(z);
  }

  // ---------------------------------------------------------------------
  // JSONOutputParser

  /** The characters the forgiving retry strips after the white space. */
  const CLEANUP_CHARS: set<char> := {'`', ' ', '\n'}

  /** A character the retry may remove from either end. */
  predicate Cleanable(c: char) {
    IsSpace(c) || c in CLEANUP_CHARS
  }

  /** `text.strip().strip("` \n")`: a contiguous part of `text`, reached by
      removing only white space and cleanup characters at its ends. */
  function JsonCleanup(text: string): (r: string)
    ensures |r| <= |text|
    ensures r == [] || (r[0] !in CLEANUP_CHARS && r[|r| - 1] !in CLEANUP_CHARS)
    ensures exists b, e :: 0 <= b <= e <= |text| && r == text[b..e]
              && (forall m :: 0 <= m < b ==> Cleanable(text[m]))
              && (forall m :: e <= m < |text| ==> Cleanable(text[m]))
  {
    CleanupSlice(text);
    StripChars(Strip(text), CLEANUP_CHARS)
  }

  lemma CleanupSlice(text: string)
    ensures var r := StripChars(Strip(text), CLEANUP_CHARS);
            exists b, e :: 0 <= b <= e <= |text| && r == text[b..e]
              && (forall m :: 0 <= m < b ==> Cleanable(text[m]))
              && (forall m :: e <= m < |text| ==> Cleanable(text[m]))
  {
    var ob, oe := StripBounds(text, Whitespace).0, StripBounds(text, Whitespace).1;
    var ib, ie := StripBounds(text[ob..oe], Chars(CLEANUP_CHARS)).0, StripBounds(text[ob..oe], Chars(CLEANUP_CHARS)).1;
    CleanupBounds(text, ob, oe, ib, ie);
  }

  /** The two strips of the retry remove only cleanable characters and keep
      the slice between the bounds they find. */
  lemma CleanupBounds(text: string, ob: nat, oe: nat, ib: nat, ie: nat)
    requires (ob, oe) == StripBounds(text, Whitespace)
    requires (ib, ie) == StripBounds(text[ob..oe], Chars(CLEANUP_CHARS))
    ensures ob + ie <= |text|
    ensures StripChars(Strip(text), CLEANUP_CHARS) == text[ob + ib..ob + ie]
    ensures forall m :: 0 <= m < ob + ib ==> Cleanable(text[m])
    ensures forall m :: ob + ie <= m < |text| ==> Cleanable(text[m])
  {
    var stripped := text[ob..oe];
    SliceOfSlice(text, ob, oe, ib, ie);
    forall m | 0 <= m < ob + ib ensures Cleanable(text[m]) {
      if m >= ob { assert text[m] == stripped[m - ob]; }
    }
    forall m | ob + ie <= m < |text| ensures Cleanable(text[m]) {
      if m < oe { assert text[m] == stripped[m - ob]; }
    }
  }

  lemma SliceOfSlice(s: string, i: nat, j: nat, k: nat, l: nat)
    requires i <= j <= |s| && k <= l <= j - i
    ensures s[i..j][k..l] == s[i + k..i + l]
  {
    var t := s[i..j];
    assert forall m :: 0 <= m < l - k ==> t[k..l][m] == t[k + m] == s[i + k + m];
  }

  /** `JSONOutputParser().parse(text)`, where `loads` is the outcome of
      `json.loads` on a text (`Raised` carrying the `JSONDecodeError`
      message): the text is tried as it is, then cleaned; when both fail the
      error names the first failure. */
  function JsonParse(text: string, loads: string -> Attempt<PyValue>): (r: Attempt<PyValue>)
    ensures loads(text).Returned? ==> r == loads(text)
    ensures r.Returned? <==> loads(text).Returned? || loads(JsonCleanup(text)).Returned?
    ensures r.Returned? ==> r == loads(text) || r == loads(JsonCleanup(text))
    ensures r.Raised? ==> r.error == "Invalid JSON output: " + loads(text).error
  {
    match loads(text)
    case Returned(v) => Returned(v)
    case Raised(e) =>
      match loads(JsonCleanup(text))
      case Returned(v) => Returned(v)
      case Raised(_) => Raised("Invalid JSON output: " + e)
  }
}
