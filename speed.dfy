/**
 * `parse_speed` and `convert_to_hps`: reading one line of hashcat benchmark
 * output, such as `Speed.#1.........:  1337.5 kH/s`, into the text that was
 * reported and a value in hashes per second.
 *
 * Python's `float(s)` and `round(x, 2)` are kept abstract: they are passed in
 * as a `FloatOps` value, and nothing is assumed about them.
 */
module SpeedParser {
  import opened Wrappers
  import opened Text

  /** `float(s)`, which either yields a number or raises `ValueError`, and
      `round(x, 2)`. */
  datatype FloatOps = FloatOps(parseFloat: string -> Option<real>, round2: real -> real)

  /** What `parse_speed` returns: the text it read, and the speed in hashes
      per second when that text could be read as a number and a unit. */
  datatype Speed = Speed(raw: string, hps: Option<real>)

  /** The result for a missing line or a line without a colon. */
  const NOT_AVAILABLE: Speed := Speed("N/A", None)

  /** The unit table of `parse_speed`. */
  const SPEED_UNITS: map<string, real> := map[
    "H/s" := 1.0,
    "kH/s" := 1000.0,
    "MH/s" := 1000000.0,
    "GH/s" := 1000000000.0,
    "TH/s" := 1000000000000.0
  ]

  /** The unit table of `convert_to_hps`, which has no `TH/s` entry. */
  const HPS_UNITS: map<string, real> := map[
    "H/s" := 1.0,
    "kH/s" := 1000.0,
    "MH/s" := 1000000.0,
    "GH/s" := 1000000000.0
  ]

  /** `table.get(unit, 1)`: an unknown unit counts as hashes per second. */
  function Multiplier(table: map<string, real>, unit: string): real {
    if unit in table then table[unit] else 1.0
  }

  /** The `try` block of `parse_speed`: the first two tokens of the reported
      text as a number and a unit; fewer than two tokens, or a first token
      that `float` rejects, give no value. */
  function ValueOf(tokens: seq<string>, ops: FloatOps): (r: Option<real>)
    ensures |tokens| < 2 ==> r.None?
    ensures r.Some? <==> |tokens| >= 2 && ops.parseFloat(tokens[0]).Some?
  {
    if |tokens| < 2 then None
    else match ops.parseFloat(tokens[0])
      case None => None
      case Some(v) => Some(ops.round2(v * Multiplier(SPEED_UNITS, tokens[1])))
  }

  /** `parse_speed(speed_line)`: the text between the first and the second
      colon of the line, stripped, and its value; a missing or empty line,
      or one without a colon, gives `("N/A", None)`. Nothing raises. */
  function ParseSpeed(line: Option<string>, ops: FloatOps): (r: Speed)
    ensures line == None || line == Some([]) ==> r == NOT_AVAILABLE
    ensures line.Some? && ':' !in line.value ==> r == NOT_AVAILABLE
    ensures r.hps.Some? ==> line.Some? && ':' in line.value
  {
    match line
    case None => NOT_AVAILABLE
    case Some(l) =>
      if l == [] then NOT_AVAILABLE
      else
        var parts := Split(l, ':');
        SplitCount(l, ':');
        if |parts| < 2 then NOT_AVAILABLE
        else
          var raw := Strip(parts[1]);
          Speed(raw, ValueOf(Words(raw), ops))
  }

  /** `convert_to_hps(value, unit)`: it scales like `parse_speed` for
      every unit but `TH/s`, which its table lacks, so that a value in
      `TH/s` is only rounded. */
  function ConvertToHps(value: real, unit: string, ops: FloatOps): (r: real)
    ensures unit != "TH/s" ==> r == ops.round2(value * Multiplier(SPEED_UNITS, unit))
    ensures unit == "TH/s" ==> r == ops.round2(value)
  {
    assert "TH/s" !in HPS_UNITS;
    assert value * 1.0 == value;
    ops.round2(value * Multiplier(HPS_UNITS, unit))
  }

  // -----------------------------------------------------------------------
  // Properties

  /** The multipliers of `parse_speed`: powers of a thousand for the five
      known units, and 1 for any other unit. */
  lemma SpeedUnitTable(unit: string)
    ensures Multiplier(SPEED_UNITS, unit) == (
      if unit == "kH/s" then 1000.0
      else if unit == "MH/s" then 1000000.0
      else if unit == "GH/s" then 1000000000.0
      else if unit == "TH/s" then 1000000000000.0
      else 1.0)
  {
  }

  /** Only the first two tokens matter: anything after the unit is ignored. */
  lemma ValueOfFirstTwo(tokens: seq<string>, ops: FloatOps)
    requires |tokens| >= 2
    ensures ValueOf(tokens, ops) == ValueOf(tokens[..2], ops)
  {
  }

  /** A line `tag:mid` or `tag:mid:rest` is read from `mid` alone: the
      reported text is `mid` stripped, and the value comes from the words of
      `mid`, whatever `tag` and `rest` are. */
  lemma ReadsBetweenFirstTwoColons(tag: string, mid: string, rest: string, ops: FloatOps)
    requires ':' !in tag && ':' !in mid
    requires rest == [] || rest[0] == ':'
    ensures ParseSpeed(Some(tag + ":" + mid + rest), ops) == Speed(Strip(mid), ValueOf(Words(mid), ops))
  {
    var l := tag + [':'] + mid + rest;
    SplitSecond(tag, mid, rest, ':');
    var field := Split(l, ':')[1];
    assert l != [];
    assert ParseSpeed(Some(l), ops) == Speed(Strip(field), ValueOf(Words(Strip(field)), ops));
    WordsStrip(mid);
  }

  /** The value of a line `tag:mid` or `tag:mid:rest` whose text `mid`
      reads `number unit ...`, with any whitespace around and between. */
  lemma ReadsNumberAndUnit(tag: string, mid: string, rest: string, pad: string, number: string, gap: string, unit: string, tail: string, ops: FloatOps)
    requires ':' !in tag && ':' !in mid
    requires rest == [] || rest[0] == ':'
    requires mid == pad + number + gap + unit + tail
    requires IsBlank(pad) && IsWord(number) && IsBlank(gap) && gap != [] && IsWord(unit)
    requires tail == [] || IsSpace(tail[0])
    ensures ParseSpeed(Some(tag + ":" + mid + rest), ops).hps ==
      match ops.parseFloat(number)
      case None => None
      case Some(v) => Some(ops.round2(v * Multiplier(SPEED_UNITS, unit)))
  {
    ReadsBetweenFirstTwoColons(tag, mid, rest, ops);
    WordsPair(pad, number, gap, unit, tail);
    ValueOfPair(number, unit, Words(tail), ops);
  }

  lemma ValueOfPair(number: string, unit: string, more: seq<string>, ops: FloatOps)
    ensures ValueOf([number, unit] + more, ops) ==
      match ops.parseFloat(number)
      case None => None
      case Some(v) => Some(ops.round2(v * Multiplier(SPEED_UNITS, unit)))
  {
    var tokens := [number, unit] + more;
    assert tokens[0] == number && tokens[1] == unit;
  }
}
