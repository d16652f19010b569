/**
  The driver of ccwc.py: which metrics the four flags select, the `wrapper`
  that computes one metric and records it in the global output line and the
  global summary dictionary, `generate_file_metric`, and the main block's
  loop over the inputs with its stdin branch and its `total` line.

  The inputs arrive already read (a name and the bytes of each file, and the
  bytes standard input would give); printing a line appends it to `output`.
  A decode error, which the program does not catch, ends the run: the
  methods report it as `ok == false` / `completed == false` and print
  nothing more.
*/
module Ccwc {
  import opened Options
  import opened Utf8
  import opened Metrics
  import opened Format
  import opened Seqs

  datatype Metric = Lines | Words | Bytes | Chars

  /** The summary key generate_file_metric hands to wrapper with each metric. */
  function Key(m: Metric): string {
    match m
    case Lines => "lines"
    case Words => "words"
    case Bytes => "bytes"
    case Chars => "chars"
  }

  /** The fixed order in which generate_file_metric tries the metrics. */
  function Rank(m: Metric): nat {
    match m
    case Lines => 0
    case Words => 1
    case Bytes => 2
    case Chars => 3
  }

  /** The four options `-l`, `-c`, `-m`, `-w` as parsed. */
  datatype Flags = Flags(line: bool, byte: bool, chars: bool, word: bool)

  predicate AnyFlag(f: Flags) {
    f.line || f.word || f.byte || f.chars
  }

  predicate Requested(f: Flags, m: Metric) {
    match m
    case Lines => f.line
    case Words => f.word
    case Bytes => f.byte
    case Chars => f.chars
  }

  /**
    The metrics one input gets, in the order their numbers appear: lines,
    words, bytes when no flag is set; otherwise exactly the flagged ones,
    always in the order lines, words, bytes, chars.
  */
  function Selection(f: Flags): (sel: seq<Metric>)
    ensures !AnyFlag(f) ==> sel == [Lines, Words, Bytes]
    ensures AnyFlag(f) ==> forall m :: m in sel <==> Requested(f, m)
    ensures forall i, j | 0 <= i < j < |sel| :: Rank(sel[i]) < Rank(sel[j])
    ensures 1 <= |sel| <= 4
  {
    if !AnyFlag(f) then [Lines, Words, Bytes]
    else
      (if f.line then [Lines] else []) + ((if f.word then [Words] else [])
      + ((if f.byte then [Bytes] else []) + (if f.chars then [Chars] else [])))
  }

  /** The default selection, one metric at a time. */
  lemma DefaultSelection(f: Flags)
    requires !AnyFlag(f)
    ensures Selection(f) == [Lines] + ([Words] + ([Bytes] + []))
  {
  }

  /** What the metric function returns for a buffer (count_lines with its default start 0); None where it raises a decode error. */
  function MetricValue(m: Metric, b: seq<Byte>): Option<nat> {
    match m
    case Lines => LineCount(b)
    case Words => CountWords(b)
    case Bytes => Some(CountBytes(b))
    case Chars => CountCharacters(b)
  }

  /** The numbers of one input's line, or None when some selected metric fails on it. */
  function RowOf(sel: seq<Metric>, b: seq<Byte>): (r: Option<seq<nat>>)
    ensures r.Some? ==> |r.value| == |sel|
    decreases |sel|
  {
    if sel == [] then Some([])
    else
      match MetricValue(sel[0], b)
      case None => None
      case Some(v) =>
        match RowOf(sel[1..], b)
        case None => None
        case Some(vs) => Some([v] + vs)
  }

  /** The row exists exactly when every selected metric is defined, and then holds their values in selection order. */
  lemma {:induction false} RowOfAt(sel: seq<Metric>, b: seq<Byte>, j: nat)
    requires j < |sel|
    ensures RowOf(sel, b).Some? ==> MetricValue(sel[j], b) == Some(RowOf(sel, b).value[j])
    ensures MetricValue(sel[j], b).None? ==> RowOf(sel, b).None?
    decreases j
  {
    if j > 0 && MetricValue(sel[0], b).Some? {
      assert sel[1..][j - 1] == sel[j];
      RowOfAt(sel[1..], b, j - 1);
    }
  }

  lemma {:induction false} RowOfDefined(sel: seq<Metric>, b: seq<Byte>)
    ensures RowOf(sel, b).Some? <==> forall j | 0 <= j < |sel| :: MetricValue(sel[j], b).Some?
    decreases |sel|
  {
    if sel != [] {
      RowOfDefined(sel[1..], b);
      assert forall j | 1 <= j < |sel| :: sel[j] == sel[1..][j - 1];
    }
  }

  function KeysOf(sel: seq<Metric>): (ks: seq<string>)
    ensures |ks| == |sel|
    ensures forall j | 0 <= j < |sel| :: ks[j] == Key(sel[j])
  {
    if sel == [] then [] else [Key(sel[0])] + KeysOf(sel[1..])
  }

  lemma SelectionKeysDistinct(f: Flags)
    ensures Distinct(KeysOf(Selection(f)))
  {
    var sel := Selection(f);
    forall i, j | 0 <= i < j < |sel|
      ensures KeysOf(sel)[i] != KeysOf(sel)[j]
    {
      assert Rank(sel[i]) < Rank(sel[j]);
      KeyInjective(sel[i], sel[j]);
    }
  }

  lemma KeyInjective(m: Metric, n: Metric)
    requires m != n
    ensures Key(m) != Key(n)
  {
    assert Key(m)[0] != Key(n)[0];
  }

  // ---------------------------------------------------------------------------
  // The global message and summary, as a value

  /** The global `message`, then `files_metric_summary`: its keys in insertion order and its entries. */
  datatype Tally = Tally(message: string, keys: seq<string>, totals: map<string, nat>)

  function Get(m: map<string, nat>, k: string): nat {
    if k in m then m[k] else 0
  }

  /** The summary's insertion order lists each of its keys exactly once. */
  ghost predicate Consistent(t: Tally) {
    && (forall k :: k in t.totals <==> k in t.keys)
    && Distinct(t.keys)
  }

  /** What one wrapper call with value `v` does: append the number and a space; setdefault the key to 0; add `v`. */
  function Record(t: Tally, key: string, v: nat): Tally {
    Tally(t.message + Decimal(v) + " ",
          if key in t.totals then t.keys else t.keys + [key],
          t.totals[key := Get(t.totals, key) + v])
  }

  /** A wrapper call touches the message, the one key and nothing else: the key is added at the end of the insertion order only when it was absent. */
  lemma RecordEffect(t: Tally, key: string, v: nat)
    ensures Record(t, key, v).message == t.message + Decimal(v) + " "
    ensures Get(Record(t, key, v).totals, key) == Get(t.totals, key) + v
    ensures forall k | k != key :: Get(Record(t, key, v).totals, k) == Get(t.totals, k)
    ensures key in t.totals ==> Record(t, key, v).keys == t.keys
    ensures key !in t.totals ==> Record(t, key, v).keys == t.keys + [key]
  {
  }

  /** A wrapper call keeps the insertion order in step with the dictionary. */
  lemma RecordKeepsConsistent(t: Tally, key: string, v: nat)
    requires Consistent(t)
    ensures Consistent(Record(t, key, v))
  {
  }

  /** The wrapper calls for `sel` in order, stopping at the first metric that fails; the flag says whether none failed. */
  function RecordAll(t: Tally, sel: seq<Metric>, b: seq<Byte>): (Tally, bool)
    decreases |sel|
  {
    if sel == [] then (t, true)
    else
      match MetricValue(sel[0], b)
      case None => (t, false)
      case Some(v) => RecordAll(Record(t, Key(sel[0]), v), sel[1..], b)
  }

  /** The same wrapper calls once their values are known: key `ks[i]` gets value `vs[i]`. */
  function RecordRow(t: Tally, ks: seq<string>, vs: seq<nat>): Tally
    requires |ks| == |vs|
    decreases |ks|
  {
    if ks == [] then t else RecordRow(Record(t, ks[0], vs[0]), ks[1..], vs[1..])
  }

  predicate Distinct(ks: seq<string>) {
    forall i, j | 0 <= i < j < |ks| :: ks[i] != ks[j]
  }

  /** The keys of `ks` that `m` does not hold yet, in their order. */
  function NewKeys(ks: seq<string>, m: map<string, nat>): seq<string> {
    if ks == [] then []
    else (if ks[0] in m then [] else [ks[0]]) + NewKeys(ks[1..], m)
  }

  lemma {:induction false} NewKeysIgnores(ks: seq<string>, m: map<string, nat>, k: string, v: nat)
    requires k !in ks
    ensures NewKeys(ks, m[k := v]) == NewKeys(ks, m)
  {
    if ks != [] {
      NewKeysIgnores(ks[1..], m, k, v);
    }
  }

  lemma {:induction false} NewKeysOfEmpty(ks: seq<string>)
    ensures NewKeys(ks, map[]) == ks
  {
    if ks != [] {
      NewKeysOfEmpty(ks[1..]);
    }
  }

  lemma {:induction false} NewKeysOfPresent(ks: seq<string>, m: map<string, nat>)
    requires forall j | 0 <= j < |ks| :: ks[j] in m
    ensures NewKeys(ks, m) == []
  {
    if ks != [] {
      NewKeysOfPresent(ks[1..], m);
    }
  }

  /** Recording `a + c` records `a`, then `c` unless some metric of `a` failed. */
  lemma {:induction false} RecordAllAppend(t: Tally, a: seq<Metric>, c: seq<Metric>, b: seq<Byte>)
    ensures RecordAll(t, a + c, b) ==
      if RecordAll(t, a, b).1 then RecordAll(RecordAll(t, a, b).0, c, b) else RecordAll(t, a, b)
    decreases |a|
  {
    if a == [] {
      assert a + c == c;
    } else {
      assert (a + c)[0] == a[0] && (a + c)[1..] == a[1..] + c;
      if MetricValue(a[0], b).Some? {
        RecordAllAppend(Record(t, Key(a[0]), MetricValue(a[0], b).value), a[1..], c, b);
      }
    }
  }

  /** Recording `[m] + rest`: the wrapper call for `m`, then the rest unless it failed. */
  lemma RecordAllCons(t: Tally, m: Metric, rest: seq<Metric>, b: seq<Byte>)
    ensures RecordAll(t, [m] + rest, b) ==
      if MetricValue(m, b).Some? then RecordAll(Record(t, Key(m), MetricValue(m, b).value), rest, b) else (t, false)
  {
    assert ([m] + rest)[1..] == rest;
  }

  /** Recording the metrics of `sel` goes through exactly when every one of them is defined on `b`, and then records the row of their values. */
  lemma {:induction false} RecordAllIsRecordRow(t: Tally, sel: seq<Metric>, b: seq<Byte>)
    ensures RecordAll(t, sel, b).1 <==> RowOf(sel, b).Some?
    ensures RowOf(sel, b).Some? ==> RecordAll(t, sel, b).0 == RecordRow(t, KeysOf(sel), RowOf(sel, b).value)
    decreases |sel|
  {
    if sel != [] && MetricValue(sel[0], b).Some? {
      var v := MetricValue(sel[0], b).value;
      RecordAllIsRecordRow(Record(t, Key(sel[0]), v), sel[1..], b);
      if RowOf(sel, b).Some? {
        var vals := RowOf(sel, b).value;
        assert vals[0] == v && vals[1..] == RowOf(sel[1..], b).value;
        assert KeysOf(sel)[0] == Key(sel[0]) && KeysOf(sel)[1..] == KeysOf(sel[1..]);
      }
    }
  }

  /** Recording a row appends the rendered row to the message. */
  lemma {:induction false} RecordRowMessage(t: Tally, ks: seq<string>, vs: seq<nat>)
    requires |ks| == |vs|
    ensures RecordRow(t, ks, vs).message == t.message + Render(vs)
    decreases |ks|
  {
    if ks != [] {
      RecordRowMessage(Record(t, ks[0], vs[0]), ks[1..], vs[1..]);
    }
  }

  /** Recording a row with distinct keys appends the keys not seen before, in their order. */
  lemma {:induction false} RecordRowKeys(t: Tally, ks: seq<string>, vs: seq<nat>)
    requires |ks| == |vs| && Distinct(ks)
    ensures RecordRow(t, ks, vs).keys == t.keys + NewKeys(ks, t.totals)
    decreases |ks|
  {
    if ks != [] {
      var k0, rest := ks[0], ks[1..];
      DistinctTail(ks);
      RecordRowKeys(Record(t, k0, vs[0]), rest, vs[1..]);
      NewKeysIgnores(rest, t.totals, k0, Get(t.totals, k0) + vs[0]);
      var n := NewKeys(rest, t.totals);
      if k0 in t.totals {
        AppendEmpty(n);
      } else {
        AppendAssoc(t.keys, [k0], n);
      }
    }
  }

  lemma DistinctTail(ks: seq<string>)
    requires ks != [] && Distinct(ks)
    ensures Distinct(ks[1..]) && ks[0] !in ks[1..]
  {
    assert forall i | 0 <= i < |ks| - 1 :: ks[1..][i] == ks[i + 1];
  }

  /** After recording a row with distinct keys, each of its keys' entries has grown by its value, and no other entry has changed. */
  lemma {:induction false} RecordRowTotals(t: Tally, ks: seq<string>, vs: seq<nat>)
    requires |ks| == |vs| && Distinct(ks)
    ensures forall k :: k in RecordRow(t, ks, vs).totals <==> k in t.totals || k in ks
    ensures forall k | k !in ks :: Get(RecordRow(t, ks, vs).totals, k) == Get(t.totals, k)
    ensures forall j | 0 <= j < |ks| :: Get(RecordRow(t, ks, vs).totals, ks[j]) == Get(t.totals, ks[j]) + vs[j]
    decreases |ks|
  {
    if ks != [] {
      var k0 := ks[0];
      var t1 := Record(t, k0, vs[0]);
      assert Distinct(ks[1..]);
      assert k0 !in ks[1..];
      RecordRowTotals(t1, ks[1..], vs[1..]);
      assert forall j | 1 <= j < |ks| :: ks[j] == ks[1..][j - 1] && vs[j] == vs[1..][j - 1];
    }
  }

  // ---------------------------------------------------------------------------
  // Several inputs

  /** One input: its name on the command line and the bytes read from it. */
  datatype Input = Input(name: string, content: seq<Byte>)

  /** Every selected metric is defined on every input of `fs`. */
  ghost predicate AllRows(sel: seq<Metric>, fs: seq<Input>)
    decreases |fs|
  {
    fs == [] || (AllRows(sel, fs[..|fs| - 1]) && RowOf(sel, fs[|fs| - 1].content).Some?)
  }

  lemma {:induction false} AllRowsAt(sel: seq<Metric>, fs: seq<Input>, k: nat)
    requires AllRows(sel, fs) && k < |fs|
    ensures RowOf(sel, fs[k].content).Some?
  {
    if k < |fs| - 1 {
      var init := fs[..|fs| - 1];
      assert init[k] == fs[k];
      AllRowsAt(sel, init, k);
    }
  }

  lemma AllRowsAppend(sel: seq<Metric>, fs: seq<Input>, f: Input)
    requires AllRows(sel, fs) && RowOf(sel, f.content).Some?
    ensures AllRows(sel, fs + [f])
  {
    assert (fs + [f])[..|fs|] == fs;
  }

  /** The position of the first input on which a selected metric fails, or the number of inputs when there is none. */
  function FirstFailure(sel: seq<Metric>, fs: seq<Input>): (n: nat)
    ensures n <= |fs|
    decreases |fs|
  {
    if fs == [] then 0
    else
      var n := FirstFailure(sel, fs[..|fs| - 1]);
      if n < |fs| - 1 then n
      else if RowOf(sel, fs[|fs| - 1].content).Some? then |fs|
      else |fs| - 1
  }

  /** Every input before the first failure goes through, and the one at it does not. */
  lemma {:induction false} FirstFailureIsFirst(sel: seq<Metric>, fs: seq<Input>)
    ensures AllRows(sel, fs[..FirstFailure(sel, fs)])
    ensures FirstFailure(sel, fs) < |fs| ==> RowOf(sel, fs[FirstFailure(sel, fs)].content).None?
    decreases |fs|
  {
    if fs != [] {
      var init := fs[..|fs| - 1];
      FirstFailureIsFirst(sel, init);
      var n := FirstFailure(sel, init);
      if n < |init| {
        assert FirstFailure(sel, fs) == n;
        PrefixOfPrefix(fs, n, |fs| - 1);
        PrefixIndex(fs, n, |fs| - 1);
      } else {
        PrefixWhole(init);
        assert AllRows(sel, init);
        if RowOf(sel, fs[|fs| - 1].content).Some? {
          assert FirstFailure(sel, fs) == |fs|;
          PrefixWhole(fs);
          assert AllRows(sel, fs);
        } else {
          assert FirstFailure(sel, fs) == |fs| - 1;
        }
      }
    }
  }

  /** The sum of one metric over the inputs; an input it is not defined on adds nothing (the total line is printed only when none is). */
  function Total(m: Metric, fs: seq<Input>): nat
    decreases |fs|
  {
    if fs == [] then 0
    else
      Total(m, fs[..|fs| - 1]) +
        match MetricValue(m, fs[|fs| - 1].content)
        case Some(v) => v
        case None => 0
  }

  /** The column sums, in selection order. */
  function Totals(sel: seq<Metric>, fs: seq<Input>): (r: seq<nat>)
    ensures |r| == |sel|
  {
    seq(|sel|, j requires 0 <= j < |sel| => Total(sel[j], fs))
  }

  /** The line printed for each input: its numbers, then its name. */
  function FileLines(sel: seq<Metric>, fs: seq<Input>): (r: seq<string>)
    requires AllRows(sel, fs)
    ensures |r| == |fs|
  {
    if fs == [] then []
    else FileLines(sel, fs[..|fs| - 1]) + [Render(RowOf(sel, fs[|fs| - 1].content).value) + fs[|fs| - 1].name]
  }

  /** The `k`-th line printed for the inputs `fs` is the `k`-th input's numbers, then its name. */
  lemma {:induction false} FileLineAt(sel: seq<Metric>, fs: seq<Input>, k: nat)
    requires AllRows(sel, fs) && k < |fs|
    ensures RowOf(sel, fs[k].content).Some?
    ensures FileLines(sel, fs)[k] == Render(RowOf(sel, fs[k].content).value) + fs[k].name
  {
    AllRowsAt(sel, fs, k);
    var init := fs[..|fs| - 1];
    if k < |fs| - 1 {
      assert init[k] == fs[k];
      FileLineAt(sel, init, k);
    }
  }

  /** The per-input lines and the total line carry their numbers in the same columns, as the program's tests read them. */
  lemma ColumnsLineUp(sel: seq<Metric>, fs: seq<Input>, k: nat)
    requires AllRows(sel, fs) && k < |fs|
    requires forall i | 0 <= i < |fs[k].name| :: fs[k].name[i] != ' '
    ensures ReadColumns(FileLines(sel, fs)[k]) == RowOf(sel, fs[k].content)
    ensures ReadColumns(Render(Totals(sel, fs)) + "total") == Some(Totals(sel, fs))
  {
    FileLineAt(sel, fs, k);
    ColumnsReadBack(RowOf(sel, fs[k].content).value, fs[k].name);
    ColumnsReadBack(Totals(sel, fs), "total");
  }

  /** `files_metric_summary.values()`: the entries in insertion order. */
  function ValuesOf(t: Tally): (vs: seq<nat>)
    ensures |vs| == |t.keys|
    ensures forall i | 0 <= i < |t.keys| :: vs[i] == Get(t.totals, t.keys[i])
  {
    seq(|t.keys|, i requires 0 <= i < |t.keys| => Get(t.totals, t.keys[i]))
  }

  /** The summary after the inputs `fs`: empty before the first one, and afterwards one entry per selected metric, in selection order, holding that metric's sum. */
  ghost predicate SummaryOf(t: Tally, sel: seq<Metric>, fs: seq<Input>) {
    && AllRows(sel, fs)
    && (fs == [] ==> t.keys == [] && t.totals == map[])
    && (fs != [] ==>
          && t.keys == KeysOf(sel)
          && (forall k :: k in t.totals <==> k in KeysOf(sel))
          && (forall j | 0 <= j < |sel| :: Get(t.totals, Key(sel[j])) == Total(sel[j], fs)))
  }

  /** A successful generate_file_metric appends the input's rendered row to the message. */
  lemma RecordAllMessage(t: Tally, sel: seq<Metric>, b: seq<Byte>)
    requires RecordAll(t, sel, b).1
    ensures RowOf(sel, b).Some?
    ensures RecordAll(t, sel, b).0.message == t.message + Render(RowOf(sel, b).value)
  {
    RecordAllIsRecordRow(t, sel, b);
    RecordRowMessage(t, KeysOf(sel), RowOf(sel, b).value);
  }

  /** One more input whose metrics all succeed: the summary then holds the sums over one input more. */
  lemma FileStep(t: Tally, sel: seq<Metric>, fs: seq<Input>, f: Input)
    requires Distinct(KeysOf(sel))
    requires SummaryOf(t, sel, fs)
    requires RecordAll(t, sel, f.content).1
    ensures SummaryOf(RecordAll(t, sel, f.content).0, sel, fs + [f])
  {
    RecordAllIsRecordRow(t, sel, f.content);
    AllRowsAppend(sel, fs, f);
    RowStep(t, sel, fs, f, RowOf(sel, f.content).value);
  }

  lemma TotalAppend(m: Metric, fs: seq<Input>, f: Input)
    requires MetricValue(m, f.content).Some?
    ensures Total(m, fs + [f]) == Total(m, fs) + MetricValue(m, f.content).value
  {
    assert (fs + [f])[..|fs|] == fs;
  }

  /** FileStep once the row is known: recording it into a summary of `fs` gives the summary of `fs + [f]`. */
  lemma RowStep(t: Tally, sel: seq<Metric>, fs: seq<Input>, f: Input, row: seq<nat>)
    requires Distinct(KeysOf(sel))
    requires SummaryOf(t, sel, fs) && AllRows(sel, fs + [f])
    requires RowOf(sel, f.content) == Some(row)
    ensures SummaryOf(RecordRow(t, KeysOf(sel), row), sel, fs + [f])
  {
    RowKeys(t, KeysOf(sel), row, fs == []);
    RowTotals(t, sel, fs, f, row);
  }

  /** Recording the row of `f` into a summary of `fs` leaves each selected metric's entry at its sum over `fs + [f]`. */
  lemma RowTotals(t: Tally, sel: seq<Metric>, fs: seq<Input>, f: Input, row: seq<nat>)
    requires Distinct(KeysOf(sel))
    requires SummaryOf(t, sel, fs)
    requires RowOf(sel, f.content) == Some(row)
    ensures forall j | 0 <= j < |sel| :: Get(RecordRow(t, KeysOf(sel), row).totals, Key(sel[j])) == Total(sel[j], fs + [f])
  {
    var ks := KeysOf(sel);
    RecordRowTotals(t, ks, row);
    forall j | 0 <= j < |sel| ensures Get(RecordRow(t, ks, row).totals, Key(sel[j])) == Total(sel[j], fs + [f]) {
      RowOfAt(sel, f.content, j);
      TotalAppend(sel[j], fs, f);
      assert ks[j] == Key(sel[j]);
    }
  }

  /** Recording a row into an empty summary, or into one that already holds all of its keys, leaves exactly its keys, in its order. */
  lemma RowKeys(t: Tally, ks: seq<string>, row: seq<nat>, first: bool)
    requires |ks| == |row| && Distinct(ks)
    requires first ==> t.keys == [] && t.totals == map[]
    requires !first ==> t.keys == ks && forall k :: k in t.totals <==> k in ks
    ensures RecordRow(t, ks, row).keys == ks
    ensures forall k :: k in RecordRow(t, ks, row).totals <==> k in ks
  {
    RecordRowKeys(t, ks, row);
    RecordRowTotals(t, ks, row);
    if first {
      NewKeysOfEmpty(ks);
    } else {
      NewKeysOfPresent(ks, t.totals);
    }
  }

  lemma FileLinesAppend(sel: seq<Metric>, fs: seq<Input>, f: Input)
    requires AllRows(sel, fs) && RowOf(sel, f.content).Some? && AllRows(sel, fs + [f])
    ensures FileLines(sel, fs + [f]) == FileLines(sel, fs) + [Render(RowOf(sel, f.content).value) + f.name]
  {
    var gs := fs + [f];
    assert gs[..|fs|] == fs && gs[|fs|] == f;
  }

  /** After all of the inputs, the total line's numbers are the column sums. */
  lemma TotalLine(t: Tally, sel: seq<Metric>, fs: seq<Input>)
    requires SummaryOf(t, sel, fs) && fs != []
    ensures ValuesOf(t) == Totals(sel, fs)
  {
  }

  /** generate_file_metric raises on the first input some metric fails on; every input before it went through. */
  lemma {:induction false} FirstFailureAt(sel: seq<Metric>, fs: seq<Input>, i: nat)
    requires i <= |fs| && AllRows(sel, fs[..i])
    requires i < |fs| ==> RowOf(sel, fs[i].content).None?
    ensures FirstFailure(sel, fs) == i
    decreases |fs|
  {
    if fs != [] {
      var init := fs[..|fs| - 1];
      if i == |fs| {
        assert fs[..i] == fs;
        assert init[..|init|] == init;
        FirstFailureAt(sel, init, |init|);
      } else {
        assert init[..i] == fs[..i];
        if i < |init| {
          assert init[i] == fs[i];
        }
        FirstFailureAt(sel, init, i);
      }
    }
  }

  /** One more pass of the main loop that goes through: the summary and the printed lines then cover one input more. */
  lemma LoopStep(t: Tally, sel: seq<Metric>, files: seq<Input>, i: nat, start: seq<string>, out: seq<string>)
    requires i < |files| && Distinct(KeysOf(sel))
    requires SummaryOf(t, sel, files[..i])
    requires RowOf(sel, files[i].content).Some?
    requires out == start + FileLines(sel, files[..i]) + [Render(RowOf(sel, files[i].content).value) + files[i].name]
    requires RecordAll(t, sel, files[i].content).1
    ensures SummaryOf(Tally("", RecordAll(t, sel, files[i].content).0.keys, RecordAll(t, sel, files[i].content).0.totals), sel, files[..i + 1])
    ensures out == start + FileLines(sel, files[..i + 1])
  {
    FileStep(t, sel, files[..i], files[i]);
    PrefixStep(files, i);
    FileLinesAppend(sel, files[..i], files[i]);
    AppendAssoc(start, FileLines(sel, files[..i]), [Render(RowOf(sel, files[i].content).value) + files[i].name]);
  }

  // ---------------------------------------------------------------------------
  // The program state

  class Program {
    /** The parsed options (the global `args`). */
    const flags: Flags
    /** The global `message`: the line being built. */
    var message: string
    /** The keys of `files_metric_summary` in insertion order. */
    var keys: seq<string>
    /** The entries of `files_metric_summary`. */
    var summary: map<string, nat>
    /** The lines printed so far. */
    var output: seq<string>

    ghost predicate Valid()
      reads this
    {
      Consistent(State())
    }

    function State(): Tally
      reads this
    {
      Tally(message, keys, summary)
    }

    /** The state the main block starts from: an empty message and an empty summary. */
    constructor (flags: Flags)
      ensures this.flags == flags
      ensures message == "" && keys == [] && summary == map[] && output == []
      ensures Valid()
    {
      this.flags := flags;
      message := "";
      keys := [];
      summary := map[];
      output := [];
    }

    /** The call `func(byteObject)` inside wrapper, for the metric function `m` stands for. */
    static method Measure(m: Metric, b: seq<Byte>) returns (r: Option<nat>)
      ensures r == MetricValue(m, b)
    {
      match m {
        case Lines =>
          var n := CountLines(b, 0);
          r := if n.Some? then Some(n.value) else None;
        case Words =>
          r := CountWords(b);
        case Bytes =>
          r := Some(CountBytes(b));
        case Chars =>
          r := CountCharacters(b);
      }
    }

    /** The last three lines of wrapper: append the number and a space to the message, setdefault the key to 0, add the value. */
    method Add(key: string, value: nat)
      requires Valid()
      modifies this
      ensures Valid()
      ensures State() == Record(old(State()), key, value)
      ensures output == old(output)
    {
      ghost var next := Record(State(), key, value);
      RecordKeepsConsistent(State(), key, value);
      message := message + Decimal(value) + " ";
      if key !in summary {
        keys := keys + [key];
        summary := summary[key := 0];
      }
      summary := summary[key := summary[key] + value];
      assert message == next.message;
      assert keys == next.keys;
      assert summary == next.totals;
      assert State() == next;
    }

    /** wrapper: compute metric `m` on `b` and record its value under `key`; a metric that raises records nothing. */
    method Wrapper(m: Metric, b: seq<Byte>, key: string) returns (ok: bool)
      requires Valid()
      modifies this
      ensures Valid()
      ensures ok == MetricValue(m, b).Some?
      ensures ok ==> State() == Record(old(State()), key, MetricValue(m, b).value)
      ensures !ok ==> State() == old(State())
      ensures output == old(output)
    {
      var r := Measure(m, b);
      if r.None? {
        return false;
      }
      Add(key, r.value);
      ok := true;
    }

    /** generate_file_metric: the wrapper calls the flags select, in order; a failing call ends it. */
    method GenerateFileMetric(b: seq<Byte>) returns (ok: bool)
      requires Valid()
      modifies this
      ensures Valid()
      ensures (State(), ok) == RecordAll(old(State()), Selection(flags), b)
      ensures output == old(output)
    {
      if !(flags.line || flags.word || flags.byte || flags.chars) {
        DefaultSelection(flags);
        RecordAllCons(State(), Lines, [Words] + ([Bytes] + []), b);
        ok := Wrapper(Lines, b, Key(Lines));
        if !ok {
          return;
        }
        RecordAllCons(State(), Words, [Bytes] + [], b);
        ok := Wrapper(Words, b, Key(Words));
        if !ok {
          return;
        }
        RecordAllCons(State(), Bytes, [], b);
        ok := Wrapper(Bytes, b, Key(Bytes));
      } else {
        ok := SelectedMetrics(b);
      }
    }

    /** The else branch of generate_file_metric: one wrapper call per flag given, in the order lines, words, bytes, chars. */
    method SelectedMetrics(b: seq<Byte>) returns (ok: bool)
      requires Valid()
      requires AnyFlag(flags)
      modifies this
      ensures Valid()
      ensures (State(), ok) == RecordAll(old(State()), Selection(flags), b)
      ensures output == old(output)
    {
      // the outcome, and what is left to record after each call: RecordAll(State(), rest, b) == goal
      ghost var goal := RecordAll(State(), Selection(flags), b);
      ghost var rest := Selection(flags);
      ghost var c: seq<Metric> := if flags.chars then [Chars] else [];
      ghost var y: seq<Metric> := (if flags.byte then [Bytes] else []) + c;
      ghost var w: seq<Metric> := (if flags.word then [Words] else []) + y;
      assert rest == (if flags.line then [Lines] else []) + w;
      ok := true;
      if flags.line {
        RecordAllCons(State(), Lines, w, b);
        ok := Wrapper(Lines, b, Key(Lines));
        if !ok {
          return;
        }
      } else {
        assert rest == w;
      }
      assert RecordAll(State(), w, b) == goal;
      if flags.word {
        RecordAllCons(State(), Words, y, b);
        ok := Wrapper(Words, b, Key(Words));
        if !ok {
          return;
        }
      } else {
        assert w == y;
      }
      assert RecordAll(State(), y, b) == goal;
      if flags.byte {
        RecordAllCons(State(), Bytes, c, b);
        ok := Wrapper(Bytes, b, Key(Bytes));
        if !ok {
          return;
        }
      } else {
        assert y == c;
      }
      assert RecordAll(State(), c, b) == goal;
      if flags.chars {
        ghost var prev := State();
        RecordAllCons(prev, Chars, [], b);
        assert c == [Chars] + [];
        ok := Wrapper(Chars, b, Key(Chars));
        if !ok {
          return;
        }
        assert State() == Record(prev, Key(Chars), MetricValue(Chars, b).value);
        assert goal == RecordAll(State(), [], b);
      } else {
        assert c == [];
      }
      assert goal == (State(), true);
    }

    /** One pass of the main loop: generate_file_metric on the input's bytes, then the name appended to the message, the message printed and reset. */
    method CountFile(f: Input) returns (ok: bool)
      requires Valid() && message == ""
      modifies this
      ensures Valid()
      ensures ok == RowOf(Selection(flags), f.content).Some?
      ensures ok ==> (keys, summary) == (RecordAll(old(State()), Selection(flags), f.content).0.keys,
                                          RecordAll(old(State()), Selection(flags), f.content).0.totals)
      ensures ok ==> message == ""
      ensures ok ==> output == old(output) + [Render(RowOf(Selection(flags), f.content).value) + f.name]
      ensures !ok ==> output == old(output)
    {
      ghost var before := State();
      ok := GenerateFileMetric(f.content);
      RecordAllIsRecordRow(before, Selection(flags), f.content);
      if !ok {
        return;
      }
      RecordAllMessage(before, Selection(flags), f.content);
      AppendEmpty(Render(RowOf(Selection(flags), f.content).value));
      message := message + f.name;
      output := output + [message];
      message := "";
    }

    /** The loop of the main block over the named inputs; it ends early, after the lines of the inputs before it, at the first input a metric fails on. */
    method CountFiles(files: seq<Input>) returns (completed: bool)
      requires Valid() && message == "" && keys == [] && summary == map[]
      modifies this
      ensures Valid()
      ensures completed == (FirstFailure(Selection(flags), files) == |files|)
      ensures AllRows(Selection(flags), files[..FirstFailure(Selection(flags), files)])
      ensures output == old(output) + FileLines(Selection(flags), files[..FirstFailure(Selection(flags), files)])
      ensures completed ==> message == "" && SummaryOf(State(), Selection(flags), files)
    {
      ghost var sel := Selection(flags);
      SelectionKeysDistinct(flags);
      var i := 0;
      while i < |files|
        invariant 0 <= i <= |files|
        invariant Valid() && message == ""
        invariant SummaryOf(State(), sel, files[..i])
        invariant output == old(output) + FileLines(sel, files[..i])
      {
        ghost var before := State();
        var ok := CountFile(files[i]);
        RecordAllIsRecordRow(before, sel, files[i].content);
        if !ok {
          FirstFailureAt(sel, files, i);
          return false;
        }
        LoopStep(before, sel, files, i, old(output), output);
        i := i + 1;
      }
      PrefixWhole(files);
      FirstFailureAt(sel, files, i);
      completed := true;
    }

    /** The main block: one line per input (its numbers, then its name); one line for standard input when there are no inputs; a total line when there are several inputs. A metric that raises ends the run. */
    method Run(files: seq<Input>, stdin: seq<Byte>) returns (completed: bool)
      modifies this
      ensures Valid()
      ensures files == [] ==> completed == RowOf(Selection(flags), stdin).Some?
      ensures files == [] && completed ==> output == old(output) + [Render(RowOf(Selection(flags), stdin).value)]
      ensures files == [] && !completed ==> output == old(output)
      ensures files != [] ==> completed == (FirstFailure(Selection(flags), files) == |files|)
      ensures files != [] ==> AllRows(Selection(flags), files[..FirstFailure(Selection(flags), files)])
      ensures files != [] && completed ==> AllRows(Selection(flags), files)
      ensures files != [] && !(completed && |files| > 1) ==>
        output == old(output) + FileLines(Selection(flags), files[..FirstFailure(Selection(flags), files)])
      ensures completed && |files| > 1 ==>
        output == old(output) + FileLines(Selection(flags), files) + [Render(Totals(Selection(flags), files)) + "total"]
      ensures files != [] && completed ==> message == "" && SummaryOf(State(), Selection(flags), files)
    {
      message := "";
      keys := [];
      summary := map[];
      ghost var sel := Selection(flags);
      ghost var start := output;
      completed := CountFiles(files);
      if !completed {
        return;
      }
      if files == [] {
        ghost var before := State();
        completed := GenerateFileMetric(stdin);
        RecordAllIsRecordRow(before, sel, stdin);
        if !completed {
          return;
        }
        RecordAllMessage(before, sel, stdin);
        AppendEmpty(start);
        AppendEmpty(Render(RowOf(sel, stdin).value));
        output := output + [message];
        return;
      }
      PrefixWhole(files);
      if |files| > 1 {
        TotalLine(State(), sel, files);
        output := output + [Render(ValuesOf(State())) + "total"];
      }
    }
  }
}
