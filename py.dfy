/** The few Python runtime notions the modelled code depends on: optional
    values, the outcome of a call that may raise, dynamically typed values
    returned by language-model wrappers, and insertion-ordered dictionaries. */
module Py {

  datatype Option<+T> = None | Some(value: T)

  /** The outcome of calling Python code that may raise: the value it returned,
      or the text `str(e)` of the exception it raised. */
  datatype Attempt<+T> = Returned(value: T) | Raised(error: string)

  /** A dynamically typed value as it comes back from a LangChain call.
      `shown` is the text `str(v)` produces for a non-string value; Python's
      `repr` rules are not modelled, so that text is part of the value.
      `Obj` is any other object: `truthy` is its truth value and `answer` its
      `answer` attribute, when it has one. */
  datatype PyValue =
    | Str(s: string)
    | Dict(entries: seq<(PyValue, PyValue)>, shown: string)
    | Obj(shown: string, truthy: bool, answer: Option<PyValue>)

  /** `str(v)`. */
  function Show(v: PyValue): string {
    match v
    case Str(s) => s
    case Dict(_, shown) => shown
    case Obj(shown, _, _) => shown
  }

  /** `bool(v)`: empty strings and empty dicts are false. */
  predicate Truthy(v: PyValue) {
    match v
    case Str(s) => s != ""
    case Dict(entries, _) => entries != []
    case Obj(_, truthy, _) => truthy
  }

  /** `d.get(key)` for a string key: the value of the entry whose key is that string. */
  function Lookup(entries: seq<(PyValue, PyValue)>, key: string): (r: Option<PyValue>)
    ensures r.Some? <==> exists i :: 0 <= i < |entries| && entries[i].0 == Str(key)
    ensures r.Some? ==> exists i :: 0 <= i < |entries| && entries[i] == (Str(key), r.value)
  {
    if entries == [] then None
    else if entries[0].0 == Str(key) then Some(entries[0].1)
    else
      var r := Lookup(entries[1..], key);
      assert forall i :: 0 < i < |entries| ==> entries[i] == entries[1..][i - 1];
      r
  }

  /** A dictionary from strings to strings, in insertion order. */
  type Pairs = seq<(string, string)>

  function KeySet(d: Pairs): set<string> {
    set i | 0 <= i < |d| :: d[i].0
  }

  /** No key occurs twice, as in every Python dict. */
  predicate UniqueKeys(d: Pairs) {
    forall i, j :: 0 <= i < j < |d| ==> d[i].0 != d[j].0
  }

  /** `d[k]` when present. */
  function DictGet(d: Pairs, k: string): (r: Option<string>)
    ensures r.None? <==> k !in KeySet(d)
    ensures r.Some? ==> exists i :: 0 <= i < |d| && d[i] == (k, r.value)
  {
    if d == [] then None
    else if d[0].0 == k then Some(d[0].1)
    else
      var r := DictGet(d[1..], k);
      assert KeySet(d) == {d[0].0} + KeySet(d[1..]) by {
        forall x | x in KeySet(d) ensures x in {d[0].0} + KeySet(d[1..]) {
          var i :| 0 <= i < |d| && d[i].0 == x;
          if i > 0 { assert d[1..][i - 1].0 == x; }
        }
        forall x | x in KeySet(d[1..]) ensures x in KeySet(d) {
          var i :| 0 <= i < |d[1..]| && d[1..][i].0 == x;
          assert d[i + 1].0 == x;
        }
      }
      assert r.Some? ==> exists i :: 0 <= i < |d| && d[i] == (k, r.value) by {
        if r.Some? {
          var i :| 0 <= i < |d[1..]| && d[1..][i] == (k, r.value);
          assert d[i + 1] == (k, r.value);
        }
      }
      r
  }

  /** `d[k] = v`: an existing key keeps its position and takes the new value,
      a new key is appended at the end. */
  function DictSet(d: Pairs, k: string, v: string): (r: Pairs)
    ensures KeySet(r) == KeySet(d) + {k}
    ensures k in KeySet(d) ==> |r| == |d|
    ensures k !in KeySet(d) ==> r == d + [(k, v)]
    ensures forall i :: 0 <= i < |d| && d[i].0 != k ==> r[i] == d[i]
  {
    if d == [] then assert [(k, v)][0].0 == k; [(k, v)]
    else if d[0].0 == k then
      assert KeySet(d) == KeySet([(k, v)] + d[1..]) by {
        forall x ensures x in KeySet(d) <==> x in KeySet([(k, v)] + d[1..]) {
          if x in KeySet(d) {
            var i :| 0 <= i < |d| && d[i].0 == x;
            assert ([(k, v)] + d[1..])[i].0 == x;
          }
          if x in KeySet([(k, v)] + d[1..]) {
            var i :| 0 <= i < |d| && ([(k, v)] + d[1..])[i].0 == x;
            assert d[i].0 == x;
          }
        }
      }
      [(k, v)] + d[1..]
    else
      var rest := DictSet(d[1..], k, v);
      KeySetCons(d[0], d[1..]);
      KeySetCons(d[0], rest);
      assert d == [d[0]] + d[1..];
      [d[0]] + rest
  }

  lemma KeySetCons(p: (string, string), d: Pairs)
    ensures KeySet([p] + d) == {p.0} + KeySet(d)
  {
    forall x | x in KeySet([p] + d) ensures x in {p.0} + KeySet(d) {
      var i :| 0 <= i < |[p] + d| && ([p] + d)[i].0 == x;
      if i > 0 { assert d[i - 1].0 == x; }
    }
    forall x | x in KeySet(d) ensures x in KeySet([p] + d) {
      var i :| 0 <= i < |d| && d[i].0 == x;
      assert ([p] + d)[i + 1].0 == x;
    }
    assert ([p] + d)[0].0 == p.0;
  }

  /** Reading back a key just written gives the written value, and every
      other key reads as before. */
  lemma {:induction false} DictSetGet(d: Pairs, k: string, v: string, k': string)
    ensures DictGet(DictSet(d, k, v), k') == if k' == k then Some(v) else DictGet(d, k')
  {
    if d != [] && d[0].0 != k {
      DictSetGet(d[1..], k, v, k');
      assert DictSet(d, k, v)[1..] == DictSet(d[1..], k, v);
    }
  }

  /** Assignment keeps the keys of a dictionary distinct. */
  lemma {:induction false} DictSetUnique(d: Pairs, k: string, v: string)
    requires UniqueKeys(d)
    ensures UniqueKeys(DictSet(d, k, v))
  {
    var r := DictSet(d, k, v);
    if k in KeySet(d) {
      var j :| 0 <= j < |d| && d[j].0 == k;
      DictSetAt(d, k, v, j);
      assert r == d[j := (k, v)];
    } else {
      forall i | 0 <= i < |d| ensures d[i].0 != k {
        assert d[i].0 in KeySet(d);
      }
    }
  }

  /** Assignment to a present key replaces that entry in place. */
  lemma {:induction false} DictSetAt(d: Pairs, k: string, v: string, j: nat)
    requires UniqueKeys(d) && j < |d| && d[j].0 == k
    ensures DictSet(d, k, v) == d[j := (k, v)]
  {
    if j > 0 {
      assert d[0].0 != k;
      DictSetAt(d[1..], k, v, j - 1);
      assert d[1..][j - 1 := (k, v)] == d[j := (k, v)][1..];
    }
  }
}
