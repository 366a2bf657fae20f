/** How the calculator page turns a language model's reply into the
    expression it evaluates (langchain_app/calculator/calculator.py):
    first a text is chosen from the reply, then a code fence, a backtick
    span or the last non-blank line is taken from that text. */
module Calculator {
  import opened Py
  import opened Text

  /** Dict keys tried first, in this order, when the reply is a dict. */
  const PRIORITY_KEYS: seq<string> := ["text", "response", "output", "content", "answer", "result"]

  const FENCE: string := "```"
  const PYTHON_TAG: string := "python\n"
  const CLOSING_FENCE: string := "\n```"

  predicate IsStrValue(v: Option<PyValue>) {
    v.Some? && v.value.Str?
  }

  /** The first index at or after `from` of a key of `keys` whose value in
      the dict is a string. */
  function FirstStringKey(entries: seq<(PyValue, PyValue)>, keys: seq<string>, from: nat): (r: Option<nat>)
    requires from <= |keys|
    ensures r.Some? ==> from <= r.value < |keys| && IsStrValue(Lookup(entries, keys[r.value]))
    ensures forall j :: from <= j < |keys| && (r.None? || j < r.value) ==> !IsStrValue(Lookup(entries, keys[j]))
    decreases |keys| - from
  {
    if from == |keys| then None
    else if IsStrValue(Lookup(entries, keys[from])) then Some(from)
    else FirstStringKey(entries, keys, from + 1)
  }

  /** The first entry at or after `from` whose value is a string. */
  function FirstStringEntry(entries: seq<(PyValue, PyValue)>, from: nat): (r: Option<nat>)
    requires from <= |entries|
    ensures r.Some? ==> from <= r.value < |entries| && entries[r.value].1.Str?
    ensures forall j :: from <= j < |entries| && (r.None? || j < r.value) ==> !entries[j].1.Str?
    decreases |entries| - from
  {
    if from == |entries| then None
    else if entries[from].1.Str? then Some(from)
    else FirstStringEntry(entries, from + 1)
  }

  /** The text an expression is extracted from: a string as it is; from a
      dict the value of the first priority key holding a string, else its
      first string value, else `str(dict)`; `str(v)` for anything else. */
  function ReplyText(v: PyValue): (r: string)
    ensures !v.Dict? ==> r == Show(v)
  {
    match v
    case Str(s) => s
    case Dict(entries, shown) => DictText(entries, shown)
    case Obj(shown, _, _) => shown
  }

  /** The text chosen from a dict reply. */
  function DictText(entries: seq<(PyValue, PyValue)>, shown: string): string {
    var k := FirstStringKey(entries, PRIORITY_KEYS, 0);
    if k.Some? then Lookup(entries, PRIORITY_KEYS[k.value]).value.s
    else
      var e := FirstStringEntry(entries, 0);
      if e.Some? then entries[e.value].1.s else shown
  }

  /** A dict reply yields the string under the earliest priority key that
      holds a string, whatever the other entries hold. */
  lemma ReplyTextPriority(entries: seq<(PyValue, PyValue)>, shown: string, i: nat)
    requires i < |PRIORITY_KEYS|
    requires Lookup(entries, PRIORITY_KEYS[i]).Some? && Lookup(entries, PRIORITY_KEYS[i]).value.Str?
    requires forall j :: 0 <= j < i ==> !IsStrValue(Lookup(entries, PRIORITY_KEYS[j]))
    ensures ReplyText(Dict(entries, shown)) == Lookup(entries, PRIORITY_KEYS[i]).value.s
  {
    var r := FirstStringKey(entries, PRIORITY_KEYS, 0);
    assert r == Some(i);
  }

  /** Without a string under any priority key, a dict reply yields its first
      string value in dict order. */
  lemma ReplyTextFirstString(entries: seq<(PyValue, PyValue)>, shown: string, j: nat)
    requires forall i :: 0 <= i < |PRIORITY_KEYS| ==> !IsStrValue(Lookup(entries, PRIORITY_KEYS[i]))
    requires j < |entries| && entries[j].1.Str?
    requires forall m :: 0 <= m < j ==> !entries[m].1.Str?
    ensures ReplyText(Dict(entries, shown)) == entries[j].1.s
  {
    NoStringKey(entries, PRIORITY_KEYS);
    FirstStringEntryAt(entries, j);
  }

  lemma FirstStringEntryAt(entries: seq<(PyValue, PyValue)>, j: nat)
    requires j < |entries| && entries[j].1.Str?
    requires forall m :: 0 <= m < j ==> !entries[m].1.Str?
    ensures FirstStringEntry(entries, 0) == Some(j)
  {
  }

  lemma NoStringKey(entries: seq<(PyValue, PyValue)>, keys: seq<string>)
    requires forall i :: 0 <= i < |keys| ==> !IsStrValue(Lookup(entries, keys[i]))
    ensures FirstStringKey(entries, keys, 0).None?
  {
  }

  /** A dict reply without any string value yields its `str` form. */
  lemma ReplyTextShown(entries: seq<(PyValue, PyValue)>, shown: string)
    requires forall m :: 0 <= m < |entries| ==> !entries[m].1.Str?
    ensures ReplyText(Dict(entries, shown)) == shown
  {
  }

  /** Where a fence opened at `i` has its body: after the three backticks,
      either the `python` tag and a line break, or just a line break. */
  predicate OpensAt(s: string, i: nat, b: nat) {
    && OccursAt(s, FENCE, i)
    && ((OccursAt(s, PYTHON_TAG, i + 3) && b == i + 10) || (OccursAt(s, "\n", i + 3) && b == i + 4))
  }

  /** The regular expression ```` ```(?:python)?\n([\s\S]+?)\n``` ```` matches
      at `i` with its group spanning `s[b..e]`: the body is not empty and ends
      at the first closing line break and fence after its first character. */
  predicate FenceMatch(s: string, i: nat, b: nat, e: nat) {
    && OpensAt(s, i, b)
    && b < e
    && OccursAt(s, CLOSING_FENCE, e)
    && forall m: nat :: b < m < e ==> !OccursAt(s, CLOSING_FENCE, m)
  }

  /** The tag and the bare line break cannot both follow the same fence. */
  lemma OpeningUnique(s: string, i: nat)
    requires OccursAt(s, PYTHON_TAG, i + 3)
    ensures !OccursAt(s, "\n", i + 3)
  {
    assert s[i + 3] == s[i + 3..i + 10][0] == 'p';
  }

  /** The match of the fence pattern that starts at `i`, if any. */
  function FenceAt(s: string, i: nat): (r: Option<(nat, nat)>)
    ensures r.Some? ==> FenceMatch(s, i, r.value.0, r.value.1)
    ensures r.None? ==> forall b: nat, e: nat :: !FenceMatch(s, i, b, e)
  {
    var tagged := OccursAt(s, PYTHON_TAG, i + 3);
    assert tagged ==> !OccursAt(s, "\n", i + 3) by { if tagged { OpeningUnique(s, i); } }
    var b := if tagged then i + 10 else i + 4;
    if !OccursAt(s, FENCE, i) || !(tagged || OccursAt(s, "\n", i + 3)) || b + 1 > |s| then None
    else
      match FindFrom(s, CLOSING_FENCE, b + 1)
      case Some(e) => Some((b, e))
      case None => None
  }

  /** `re.search` for the fence pattern from `from` on: the leftmost start. */
  function FindFence(s: string, from: nat): (r: Option<(nat, nat, nat)>)
    requires from <= |s|
    ensures r.Some? ==> from <= r.value.0 && FenceMatch(s, r.value.0, r.value.1, r.value.2)
    ensures forall i: nat, b: nat, e: nat :: from <= i && (r.None? || i < r.value.0) ==> !FenceMatch(s, i, b, e)
    decreases |s| - from
  {
    match FenceAt(s, from)
    case Some((b, e)) => Some((from, b, e))
    case None => if from == |s| then None else FindFence(s, from + 1)
  }

  /** The regular expression `` `([^`]+)` `` matches at `i` with its group
      spanning `s[i + 1..j]`: a non-empty run free of backticks between two
      backticks. */
  predicate BacktickMatch(s: string, i: nat, j: nat) {
    && i + 1 < j < |s|
    && s[i] == '`' && s[j] == '`'
    && forall m :: i < m < j ==> s[m] != '`'
  }

  /** The match of the backtick pattern that starts at `i`, if any. */
  function BacktickAt(s: string, i: nat): (r: Option<nat>)
    ensures r.Some? ==> BacktickMatch(s, i, r.value)
    ensures r.None? ==> forall j: nat :: !BacktickMatch(s, i, j)
  {
    if i + 1 < |s| && s[i] == '`' && s[i + 1] != '`' then
      match FindFrom(s, "`", i + 1)
      case Some(j) =>
        assert forall m :: i < m < j ==> s[m] != '`' by {
          forall m | i < m < j ensures s[m] != '`' {
            assert !OccursAt(s, "`", m);
            assert s[m..m + 1] == [s[m]];
          }
        }
        Some(j)
      case None =>
        assert forall j :: i + 1 <= j < |s| ==> s[j] != '`' by {
          forall j | i + 1 <= j < |s| ensures s[j] != '`' {
            assert !OccursAt(s, "`", j);
            assert s[j..j + 1] == [s[j]];
          }
        }
        None
    else None
  }

  /** `re.search` for the backtick pattern from `from` on: the leftmost start. */
  function FindBacktick(s: string, from: nat): (r: Option<(nat, nat)>)
    requires from <= |s|
    ensures r.Some? ==> from <= r.value.0 && BacktickMatch(s, r.value.0, r.value.1)
    ensures forall i: nat, j: nat :: from <= i && (r.None? || i < r.value.0) ==> !BacktickMatch(s, i, j)
    decreases |s| - from
  {
    match BacktickAt(s, from)
    case Some(j) => Some((from, j))
    case None => if from == |s| then None else FindBacktick(s, from + 1)
  }

  /** `[line.strip() for line in lines if line.strip()]`. */
  function NonBlankStripped(lines: seq<string>): (r: seq<string>)
    requires forall k :: 0 <= k < |lines| ==> NoLineBreak(lines[k])
    ensures forall k :: 0 <= k < |r| ==> r[k] != [] && NoLineBreak(r[k]) && Trimmed(r[k])
  {
    if lines == [] then []
    else
      var n := |lines| - 1;
      var init := NonBlankStripped(lines[..n]);
      var l := Strip(lines[n]);
      if l == [] then init
      else
        StripNoLineBreak(lines[n]);
        assert forall k :: 0 <= k < |init| ==> (init + [l])[k] == init[k];
        init + [l]
  }

  /** The comprehension is empty exactly when every line is blank. */
  lemma {:induction false} NonBlankStrippedEmpty(lines: seq<string>)
    requires forall k :: 0 <= k < |lines| ==> NoLineBreak(lines[k])
    ensures NonBlankStripped(lines) == [] <==> forall k :: 0 <= k < |lines| ==> AllSpace(lines[k])
  {
    if lines != [] {
      var n := |lines| - 1;
      NonBlankStrippedEmpty(lines[..n]);
      assert forall k :: 0 <= k < n ==> lines[..n][k] == lines[k];
    }
  }

  /** `extract_expression` once the reply has become a string. */
  function ExtractFromText(text: string): (r: string)
    ensures Trimmed(r)
  {
    match FindFence(text, 0)
    case Some((_, b, e)) => Strip(text[b..e])
    case None => WithoutFence(text)
  }

  /** The rest of `extract_expression` when no fence matched. */
  function WithoutFence(text: string): (r: string)
    ensures Trimmed(r)
  {
    match FindBacktick(text, 0)
    case Some((i, j)) => Strip(text[i + 1..j])
    case None => LastLine(text)
  }

  /** The last non-blank line, stripped, or `text.strip()` when there is none. */
  function LastLine(text: string): (r: string)
    ensures Trimmed(r)
  {
    var lines := NonBlankStripped(SplitLines(text));
    if lines != [] then lines[|lines| - 1] else Strip(text)
  }

  /** `extract_expression(reply)`. */
  function ExtractExpression(reply: PyValue): (r: string)
    ensures Trimmed(r)
  {
    ExtractFromText(ReplyText(reply))
  }

  /** A fence wins over everything else: the result is the stripped body of
      the leftmost fence. */
  lemma FenceFirst(text: string, i: nat, b: nat, e: nat)
    requires FenceMatch(text, i, b, e)
    requires forall i': nat, b': nat, e': nat :: i' < i ==> !FenceMatch(text, i', b', e')
    ensures ExtractFromText(text) == Strip(text[b..e])
  {
    var r := FindFence(text, 0);
    assert r.Some? && r.value.0 == i;
    FenceMatchUnique(text, i, b, e, r.value.1, r.value.2);
  }

  /** A fence start determines the whole match. */
  lemma FenceMatchUnique(s: string, i: nat, b: nat, e: nat, b': nat, e': nat)
    requires FenceMatch(s, i, b, e) && FenceMatch(s, i, b', e')
    ensures b == b' && e == e'
  {
    if OccursAt(s, PYTHON_TAG, i + 3) { OpeningUnique(s, i); }
  }

  /** Without a fence, the leftmost backtick span wins, stripped. */
  lemma BacktickSecond(text: string, i: nat, j: nat)
    requires forall i': nat, b': nat, e': nat :: !FenceMatch(text, i', b', e')
    requires BacktickMatch(text, i, j)
    requires forall i': nat, j': nat :: i' < i ==> !BacktickMatch(text, i', j')
    ensures ExtractFromText(text) == Strip(text[i + 1..j])
  {
    NoFence(text);
    LeftmostBacktick(text, i, j);
  }

  lemma NoFence(text: string)
    requires forall i: nat, b: nat, e: nat :: !FenceMatch(text, i, b, e)
    ensures FindFence(text, 0).None?
  {
  }

  lemma LeftmostBacktick(text: string, i: nat, j: nat)
    requires BacktickMatch(text, i, j)
    requires forall i': nat, j': nat :: i' < i ==> !BacktickMatch(text, i', j')
    ensures FindBacktick(text, 0) == Some((i, j))
  {
    var r := FindBacktick(text, 0);
    assert r.Some? && r.value.0 == i;
    BacktickMatchUnique(text, i, j, r.value.1);
  }

  lemma NoBacktick(text: string)
    requires forall i: nat, j: nat :: !BacktickMatch(text, i, j)
    ensures FindBacktick(text, 0).None?
  {
  }

  /** A backtick span start determines its end. */
  lemma BacktickMatchUnique(s: string, i: nat, j: nat, j': nat)
    requires BacktickMatch(s, i, j) && BacktickMatch(s, i, j')
    ensures j == j'
  {
  }

  /** With neither a fence nor a backtick span, the result is the last line
      that is not blank, stripped: it holds no line break and is not empty. */
  lemma LastLineOtherwise(text: string, k: nat)
    requires forall i: nat, b: nat, e: nat :: !FenceMatch(text, i, b, e)
    requires forall i: nat, j: nat :: !BacktickMatch(text, i, j)
    requires k < |SplitLines(text)| && !AllSpace(SplitLines(text)[k])
    requires forall m :: k < m < |SplitLines(text)| ==> AllSpace(SplitLines(text)[m])
    ensures ExtractFromText(text) == Strip(SplitLines(text)[k])
    ensures ExtractFromText(text) != [] && NoLineBreak(ExtractFromText(text))
  {
    OnlyLines(text);
    LastLineAt(text, k);
    StripNoLineBreak(SplitLines(text)[k]);
  }

  /** The last-line stage picks the stripped last non-blank line. */
  lemma LastLineAt(text: string, k: nat)
    requires k < |SplitLines(text)| && !AllSpace(SplitLines(text)[k])
    requires forall m :: k < m < |SplitLines(text)| ==> AllSpace(SplitLines(text)[m])
    ensures LastLine(text) == Strip(SplitLines(text)[k]) != []
  {
    LastNonBlank(SplitLines(text), k);
  }

  lemma OnlyLines(text: string)
    requires forall i: nat, b: nat, e: nat :: !FenceMatch(text, i, b, e)
    requires forall i: nat, j: nat :: !BacktickMatch(text, i, j)
    ensures ExtractFromText(text) == LastLine(text)
  {
    NoFence(text);
    NoBacktick(text);
  }

  lemma {:induction false} LastNonBlank(lines: seq<string>, k: nat)
    requires forall m :: 0 <= m < |lines| ==> NoLineBreak(lines[m])
    requires k < |lines| && !AllSpace(lines[k])
    requires forall m :: k < m < |lines| ==> AllSpace(lines[m])
    ensures var r := NonBlankStripped(lines); r != [] && r[|r| - 1] == Strip(lines[k])
  {
    var n := |lines| - 1;
    NonBlankStrippedLast(lines);
    if k < n {
      assert forall m :: 0 <= m < n ==> lines[..n][m] == lines[m];
      LastNonBlank(lines[..n], k);
    }
  }

  /** The comprehension over a non-empty list of lines: the stripped last
      line goes last unless it is blank. */
  lemma NonBlankStrippedLast(lines: seq<string>)
    requires lines != []
    requires forall m :: 0 <= m < |lines| ==> NoLineBreak(lines[m])
    ensures var n := |lines| - 1;
            NonBlankStripped(lines)
            == NonBlankStripped(lines[..n]) + (if Strip(lines[n]) == [] then [] else [Strip(lines[n])])
  {
  }

  /** When every line is blank the whole text is white space, so the final
      fallback `text.strip()` always gives the empty string. */
  lemma AllBlankGivesEmpty(text: string)
    requires forall i: nat, b: nat, e: nat :: !FenceMatch(text, i, b, e)
    requires forall i: nat, j: nat :: !BacktickMatch(text, i, j)
    requires forall m :: 0 <= m < |SplitLines(text)| ==> AllSpace(SplitLines(text)[m])
    ensures ExtractFromText(text) == Strip(text) == ""
  {
    OnlyLines(text);
    BlankLinesBlankText(text);
    NonBlankStrippedEmpty(SplitLines(text));
  }

  /** If every line of `s` is blank, all of `s` is white space. */
  lemma {:induction false} BlankLinesBlankText(s: string)
    requires forall m :: 0 <= m < |SplitLines(s)| ==> AllSpace(SplitLines(s)[m])
    ensures AllSpace(s)
    decreases |s|
  {
    if s != [] {
      var e := LineEnd(s, 0);
      var lines := SplitLines(s);
      if e == |s| {
        assert lines[0] == s;
      } else {
        var next := if s[e] == '\r' && e + 1 < |s| && s[e + 1] == '\n' then e + 2 else e + 1;
        var head, brk, tail := s[..e], s[e..next], s[next..];
        var rest := SplitLines(tail);
        assert lines == [head] + rest;
        assert AllSpace(head) by { assert lines[0] == head; }
        assert AllSpace(brk) by {
          forall i | 0 <= i < |brk| ensures IsSpace(brk[i]) {
            assert brk[i] == s[e + i];
            LineBreakIsSpace(s[e + i]);
          }
        }
        assert AllSpace(tail) by {
          forall m | 0 <= m < |rest| ensures AllSpace(rest[m]) { assert rest[m] == lines[m + 1]; }
          BlankLinesBlankText(tail);
        }
        assert s == head + brk + tail;
        AllSpaceConcat(head, brk, tail);
      }
    }
  }

  lemma AllSpaceConcat(a: string, b: string, c: string)
    requires AllSpace(a) && AllSpace(b) && AllSpace(c)
    ensures AllSpace(a + b + c)
  {
  }

  /** What happens when Compute is pressed with `userInput` and the conversion
      chain call had `conversion` as its outcome: None (a warning is shown)
      for a blank input, otherwise the expression handed to `eval`. An empty
      or failed conversion falls back to the stripped input, and only the
      first double quote is removed. */
  function ComputeExpression(userInput: string, conversion: Attempt<PyValue>): (r: Option<string>)
    ensures r.None? <==> AllSpace(userInput)
    ensures !AllSpace(userInput) && conversion.Returned? && Truthy(conversion.value)
            ==> r == Some(RemoveFirst(ExtractExpression(conversion.value), '"'))
  {
    if Strip(userInput) == "" then None
    else
      var raw := if conversion.Returned? then conversion.value else Str("");
      var expr := if Truthy(raw) then ExtractExpression(raw) else Strip(userInput);
      Some(RemoveFirst(expr, '"'))
  }

  /** A failed or empty conversion evaluates the stripped input itself, minus
      its first double quote. */
  lemma ComputeFallsBack(userInput: string, conversion: Attempt<PyValue>)
    requires !AllSpace(userInput)
    requires conversion.Raised? || !Truthy(conversion.value)
    ensures ComputeExpression(userInput, conversion) == Some(RemoveFirst(Strip(userInput), '"'))
  {
  }

  /** Removing the first double quote drops exactly one `"` when there is one
      and keeps every other character. */
  lemma {:induction false} RemoveFirstCount(s: string, c: char)
    ensures multiset(RemoveFirst(s, c)) == multiset(s) - multiset{c}
  {
    if s != [] {
      assert s == [s[0]] + s[1..];
      if s[0] != c {
        RemoveFirstCount(s[1..], c);
        assert RemoveFirst(s, c) == [s[0]] + RemoveFirst(s[1..], c);
      }
    }
  }
}
