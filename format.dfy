/**
  The text of an output line: `f"{value} "` appended once per metric, then
  the input's name. The values can be read back from such a line by
  splitting it at every space and dropping the last field, which is how the
  program's own tests read its columns.
*/
module Format {
  import opened Options
  import opened Text

  predicate IsDigit(c: char) {
    '0' <= c <= '9'
  }

  function DigitChar(d: nat): (c: char)
    requires d < 10
    ensures IsDigit(c) && c as int - '0' as int == d
  {
    ('0' as int + d) as char
  }

  /** `str(n)` for a non-negative integer: decimal digits without leading zeros. */
  function Decimal(n: nat): (s: string)
    ensures |s| >= 1
    ensures forall i | 0 <= i < |s| :: IsDigit(s[i])
    ensures s[0] == '0' ==> n == 0 && s == "0"
  {
    if n < 10 then [DigitChar(n)] else Decimal(n / 10) + [DigitChar(n % 10)]
  }

  /** `int(s)` for a text made of digits only; None for anything else. */
  function ParseDecimal(s: string): (r: Option<nat>)
  {
    if s == [] || !IsDigit(s[|s| - 1]) then None
    else
      var d := s[|s| - 1] as int - '0' as int;
      if |s| == 1 then Some(d)
      else
        match ParseDecimal(s[..|s| - 1])
        case None => None
        case Some(v) => Some(10 * v + d)
  }

  /** The numbers of one output line, each followed by one space. */
  function Render(vals: seq<nat>): (line: string)
  {
    if vals == [] then "" else Decimal(vals[0]) + " " + Render(vals[1..])
  }

  predicate IsBlank(c: char) {
    c == ' '
  }

  function ParseAll(fields: seq<string>): (r: Option<seq<nat>>)
  {
    if fields == [] then Some([])
    else
      match ParseDecimal(fields[0])
      case None => None
      case Some(v) =>
        match ParseAll(fields[1..])
        case None => None
        case Some(vs) => Some([v] + vs)
  }

  /** `[int(v) for v in line.split(" ")[:-1]]`: the numbers in front of the last field. */
  function ReadColumns(line: string): (r: Option<seq<nat>>)
  {
    var fields := Split(line, IsBlank);
    ParseAll(fields[..|fields| - 1])
  }

  lemma {:induction false} ParseDecimalOfDecimal(n: nat)
    ensures ParseDecimal(Decimal(n)) == Some(n)
  {
    if n >= 10 {
      var s := Decimal(n);
      ParseDecimalOfDecimal(n / 10);
      assert s[..|s| - 1] == Decimal(n / 10);
    }
  }

  /** A line made of rendered values and a name without spaces splits into the values' digits and then the name. */
  lemma {:induction false} SplitRenderedLine(vals: seq<nat>, name: string)
    requires forall i | 0 <= i < |name| :: name[i] != ' '
    ensures Split(Render(vals) + name, IsBlank) == seq(|vals|, k requires 0 <= k < |vals| => Decimal(vals[k])) + [name]
  {
    if vals == [] {
      assert Render(vals) + name == name;
      SplitNoSeparator(name, IsBlank);
    } else {
      var w := Decimal(vals[0]);
      var rest := Render(vals[1..]) + name;
      assert Render(vals) + name == w + [' '] + rest;
      SplitAfterWord(w, ' ', rest, IsBlank);
      SplitRenderedLine(vals[1..], name);
    }
  }

  lemma {:induction false} ParseAllDecimals(vals: seq<nat>)
    ensures ParseAll(seq(|vals|, k requires 0 <= k < |vals| => Decimal(vals[k]))) == Some(vals)
  {
    var ds := seq(|vals|, k requires 0 <= k < |vals| => Decimal(vals[k]));
    if vals != [] {
      ParseDecimalOfDecimal(vals[0]);
      ParseAllDecimals(vals[1..]);
      assert ds[1..] == seq(|vals| - 1, k requires 0 <= k < |vals| - 1 => Decimal(vals[1..][k]));
      assert [vals[0]] + vals[1..] == vals;
    }
  }

  /** Reading the columns of a rendered line gives back exactly the values, in order. */
  lemma ColumnsReadBack(vals: seq<nat>, name: string)
    requires forall i | 0 <= i < |name| :: name[i] != ' '
    ensures ReadColumns(Render(vals) + name) == Some(vals)
  {
    SplitRenderedLine(vals, name);
    var ds := seq(|vals|, k requires 0 <= k < |vals| => Decimal(vals[k]));
    assert (ds + [name])[..|ds|] == ds;
    ParseAllDecimals(vals);
  }
}
