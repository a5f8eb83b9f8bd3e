/**
 * The tolerant telemetry line parser (`parse_kv_line`). A line is a
 * comma-separated list whose first token is a source tag and whose other
 * tokens are `key=value` pairs; it yields a `Reading` when the required
 * keys `tempC`, `mq2` and `flame` are present and numeric, and `None`
 * otherwise.
 */
module LineParser {
  import opened Wrappers
  import opened Text
  import opened Numerals

  /** One decoded sample. */
  datatype Reading = Reading(
    ms: int,          // device milliseconds, 0 when absent
    tempC: real,      // temperature, exact decimal value
    mq2: int,         // gas sensor reading, truncated toward zero
    flameRaw: int,    // flame sensor reading, truncated toward zero
    gas: string,      // free-text label, "" when absent
    light: string)    // free-text label, "" when absent

  /** A token that takes part in the key/value collection. */
  predicate IsPair(token: string) {
    '=' in token
  }

  /** The stripped text before the first `=`. */
  function KeyOf(token: string): string
    requires IsPair(token)
  {
    Strip(SplitAtFirst(token, '=').0)
  }

  /** The stripped text after the first `=`. */
  function ValueOf(token: string): string
    requires IsPair(token)
  {
    Strip(SplitAtFirst(token, '=').1)
  }

  /** One iteration of the collection loop. */
  function AddPair(kv: map<string, string>, token: string): map<string, string> {
    if IsPair(token) then kv[KeyOf(token) := ValueOf(token)] else kv
  }

  /** The dictionary the collection loop builds from `tokens`, in order. */
  function Pairs(tokens: seq<string>): map<string, string> {
    if tokens == [] then map[]
    else AddPair(Pairs(tokens[..|tokens| - 1]), tokens[|tokens| - 1])
  }

  /** The tokens of a line after the source tag. */
  function Fields(line: string): seq<string> {
    Split(Strip(line), ',')[1..]
  }

  /** What `parse_kv_line` does once the line is stripped. */
  function ParseStripped(s: string): Option<Reading> {
    if s == [] then None else ToReading(Pairs(Split(s, ',')[1..]))
  }

  function Lookup(kv: map<string, string>, key: string, default: string): string {
    if key in kv then kv[key] else default
  }

  /** The required-key check and the conversions, with any failing
      conversion rejecting the line. */
  function ToReading(kv: map<string, string>): Option<Reading> {
    if "tempC" !in kv || "mq2" !in kv || "flame" !in kv then
      None
    else
      var ms := if "ms" in kv then ParseInt(kv["ms"]) else Some(0);
      var tempC := ParseDecimal(kv["tempC"]);
      var mq2 := ParseDecimal(kv["mq2"]);
      var flame := ParseDecimal(kv["flame"]);
      if ms.None? || tempC.None? || mq2.None? || flame.None? then
        None
      else
        Some(Reading(ms.value, tempC.value,
                     TruncateTowardZero(mq2.value), TruncateTowardZero(flame.value),
                     Lookup(kv, "gas", ""), Lookup(kv, "light", "")))
  }

  /** What `parse_kv_line` returns for `line`. */
  function Parse(line: string): Option<Reading> {
    ParseStripped(Strip(line))
  }

  /** `parse_kv_line`: strip, reject an empty line, split on commas, fill
      the dictionary from the tokens after the first, then convert. */
  method ParseKvLine(line: string) returns (r: Option<Reading>)
    ensures r == Parse(line)
  {
    var s := Strip(line);
    if s == [] {
      return None;
    }
    var parts := Split(s, ',');
    var kv: map<string, string> := map[];
    var i := 1;
    while i < |parts|
      invariant 1 <= i <= |parts|
      invariant kv == Pairs(parts[1..i])
    {
      var p := parts[i];
      if '=' in p {
        var (k, v) := SplitAtFirst(p, '=');
        kv := kv[Strip(k) := Strip(v)];
      }
      PairsStep(parts, i);
      i := i + 1;
    }
    assert parts[1..i] == parts[1..];
    r := ToReading(kv);
  }

  lemma PairsStep(parts: seq<string>, i: int)
    requires 1 <= i < |parts|
    ensures Pairs(parts[1..i + 1]) == AddPair(Pairs(parts[1..i]), parts[i])
  {
    assert parts[1..i + 1][..i - 1] == parts[1..i];
  }

  // Reference definitions for the dictionary.

  /** Some token of `tokens` is a pair with key `k`. */
  ghost predicate HasKey(tokens: seq<string>, k: string) {
    exists j :: 0 <= j < |tokens| && IsPair(tokens[j]) && KeyOf(tokens[j]) == k
  }

  /** Token `j` is the last pair of `tokens` with key `k`. */
  ghost predicate IsLastPair(tokens: seq<string>, j: int, k: string) {
    && 0 <= j < |tokens| && IsPair(tokens[j]) && KeyOf(tokens[j]) == k
    && forall j' :: j < j' < |tokens| && IsPair(tokens[j']) ==> KeyOf(tokens[j']) != k
  }

  /** The dictionary holds exactly the keys of the pair tokens. */
  lemma {:induction false} PairsKeys(tokens: seq<string>, k: string)
    ensures k in Pairs(tokens) <==> HasKey(tokens, k)
  {
    if tokens != [] {
      var init, t := tokens[..|tokens| - 1], tokens[|tokens| - 1];
      assert tokens == init + [t];
      PairsKeys(init, k);
      HasKeySnoc(init, t, k);
    }
  }

  lemma HasKeySnoc(init: seq<string>, t: string, k: string)
    ensures HasKey(init + [t], k) <==> HasKey(init, k) || (IsPair(t) && KeyOf(t) == k)
  {
    var s := init + [t];
    if HasKey(init, k) {
      var j :| 0 <= j < |init| && IsPair(init[j]) && KeyOf(init[j]) == k;
      assert s[j] == init[j];
    }
    if IsPair(t) && KeyOf(t) == k {
      assert s[|init|] == t;
    }
    if HasKey(s, k) && !(IsPair(t) && KeyOf(t) == k) {
      var j :| 0 <= j < |s| && IsPair(s[j]) && KeyOf(s[j]) == k;
      assert j < |init| && init[j] == s[j];
    }
  }

  /** For a repeated key the last occurrence wins. */
  lemma {:induction false} PairsLastWins(tokens: seq<string>, j: int, k: string)
    requires IsLastPair(tokens, j, k)
    ensures k in Pairs(tokens) && Pairs(tokens)[k] == ValueOf(tokens[j])
  {
    var init, t := tokens[..|tokens| - 1], tokens[|tokens| - 1];
    if j < |tokens| - 1 {
      assert IsLastPair(init, j, k) by {
        forall j' | j < j' < |init| && IsPair(init[j'])
          ensures KeyOf(init[j']) != k
        {
          assert init[j'] == tokens[j'];
        }
      }
      PairsLastWins(init, j, k);
    }
  }

  /** A key that occurs has a last occurrence. */
  lemma {:induction false} LastPair(tokens: seq<string>, k: string) returns (j: int)
    requires HasKey(tokens, k)
    ensures IsLastPair(tokens, j, k)
  {
    var n := |tokens| - 1;
    if IsPair(tokens[n]) && KeyOf(tokens[n]) == k {
      j := n;
    } else {
      KeyBeforeLast(tokens, k);
      j := LastPair(tokens[..n], k);
      LastPairBeforeLast(tokens, j, k);
    }
  }


  lemma KeyBeforeLast(tokens: seq<string>, k: string)
    requires HasKey(tokens, k)
    requires !(IsPair(tokens[|tokens| - 1]) && KeyOf(tokens[|tokens| - 1]) == k)
    ensures HasKey(tokens[..|tokens| - 1], k)
  {
    assert tokens == tokens[..|tokens| - 1] + [tokens[|tokens| - 1]];
    HasKeySnoc(tokens[..|tokens| - 1], tokens[|tokens| - 1], k);
  }

  lemma LastPairBeforeLast(tokens: seq<string>, j: int, k: string)
    requires tokens != [] && IsLastPair(tokens[..|tokens| - 1], j, k)
    requires !(IsPair(tokens[|tokens| - 1]) && KeyOf(tokens[|tokens| - 1]) == k)
    ensures IsLastPair(tokens, j, k)
  {
    var init := tokens[..|tokens| - 1];
    assert init[j] == tokens[j];
    forall i | j < i < |tokens| && IsPair(tokens[i])
      ensures KeyOf(tokens[i]) != k
    {
      if i < |init| {
        assert init[i] == tokens[i];
      }
    }
  }

  /** A token without `=` does not affect the dictionary, wherever it is. */
  lemma {:induction false} PairsSkipsPlainToken(a: seq<string>, t: string, b: seq<string>)
    requires !IsPair(t)
    ensures Pairs(a + [t] + b) == Pairs(a + b)
  {
    if b == [] {
      assert (a + [t] + b)[..|a|] == a;
      assert a + b == a;
    } else {
      var b' := b[..|b| - 1];
      PairsSkipsPlainToken(a, t, b');
      assert (a + [t] + b)[..|a + [t] + b| - 1] == a + [t] + b';
      assert (a + b)[..|a + b| - 1] == a + b';
    }
  }

  /** A pair token splits at its first `=`: the value keeps any later `=`. */
  lemma PairAtFirstEquals(k: string, v: string)
    requires '=' !in k
    ensures IsPair(k + "=" + v)
    ensures KeyOf(k + "=" + v) == Strip(k) && ValueOf(k + "=" + v) == Strip(v)
  {
    assert k + "=" + v == k + ['='] + v;
    assert (k + "=" + v)[|k|] == '=';
    SplitAtFirstOf(k, '=', v);
  }

  // Properties of the parser.

  /** An empty or whitespace-only line yields no reading. */
  lemma BlankLineRejected(line: string)
    requires AllSpace(line)
    ensures Parse(line) == None
  {
    StripSpec(line);
  }

  /** The parser strips the line itself, so stripping first changes nothing. */
  lemma ParseIgnoresSurroundingSpace(line: string)
    ensures Parse(Strip(line)) == Parse(line)
  {
    StripIdempotent(line);
  }

  /** A line lacking any of `tempC`, `mq2`, `flame` among the tokens after
      the tag yields no reading. */
  lemma MissingRequiredKeyRejected(line: string)
    requires !HasKey(Fields(line), "tempC") || !HasKey(Fields(line), "mq2") || !HasKey(Fields(line), "flame")
    ensures Parse(line) == None
  {
    PairsKeys(Fields(line), "tempC");
    PairsKeys(Fields(line), "mq2");
    PairsKeys(Fields(line), "flame");
  }

  /** The source tag is never read as a key, even when it holds `=`: the
      result depends only on what follows the first comma. */
  lemma TagIgnored(tag: string, rest: string)
    requires ',' !in tag
    ensures ParseStripped(tag + "," + rest) == ToReading(Pairs(Split(rest, ',')))
  {
    assert tag + "," + rest == tag + [','] + rest;
    SplitAfterFirstPiece(tag, ',', rest);
  }

  /** A token without `=` after the tag does not change the result. */
  lemma PlainTokenIgnored(tag: string, plain: string, rest: string)
    requires ',' !in tag && ',' !in plain && '=' !in plain
    ensures ParseStripped(tag + "," + plain + "," + rest) == ParseStripped(tag + "," + rest)
  {
    var tail := plain + "," + rest;
    assert tag + "," + plain + "," + rest == tag + "," + tail;
    TagIgnored(tag, rest);
    TagIgnored(tag, tail);
    PlainPieceSkipped(plain, rest);
  }

  lemma PlainPieceSkipped(plain: string, rest: string)
    requires ',' !in plain && '=' !in plain
    ensures Pairs(Split(plain + "," + rest, ',')) == Pairs(Split(rest, ','))
  {
    assert plain + "," + rest == plain + [','] + rest;
    SplitAfterFirstPiece(plain, ',', rest);
    PairsSkipsPlainToken([], plain, Split(rest, ','));
    assert [] + [plain] + Split(rest, ',') == [plain] + Split(rest, ',');
    assert [] + Split(rest, ',') == Split(rest, ',');
  }

  /** A required field whose last value is not a decimal literal rejects the
      line; so does an `ms` field whose last value is not an integer. */
  lemma MalformedNumberRejected(line: string, k: string, j: int)
    requires k == "tempC" || k == "mq2" || k == "flame" || k == "ms"
    requires IsLastPair(Fields(line), j, k)
    requires if k == "ms" then ParseInt(ValueOf(Fields(line)[j])).None?
             else ParseDecimal(ValueOf(Fields(line)[j])).None?
    ensures Parse(line) == None
  {
    PairsLastWins(Fields(line), j, k);
    assert Strip(line) != [] by {
      assert |Split(Strip(line), ',')| > 1;
    }
  }

  /** The `ms` field may be absent, but a present one must parse. */
  ghost predicate MsAcceptable(tokens: seq<string>) {
    forall j :: IsLastPair(tokens, j, "ms") ==> ParseInt(ValueOf(tokens[j])).Some?
  }

  /** A line whose required fields' last values are numeric, and whose `ms`
      is absent or an integer, yields the reading those values give:
      `mq2` and `flame` truncated toward zero, `ms`, `gas` and `light` as
      their last values, absent `ms` read as 0 and absent labels as empty. */
  lemma WellFormedAccepted(line: string, jt: int, jm: int, jf: int)
    requires IsLastPair(Fields(line), jt, "tempC") && ParseDecimal(ValueOf(Fields(line)[jt])).Some?
    requires IsLastPair(Fields(line), jm, "mq2") && ParseDecimal(ValueOf(Fields(line)[jm])).Some?
    requires IsLastPair(Fields(line), jf, "flame") && ParseDecimal(ValueOf(Fields(line)[jf])).Some?
    requires MsAcceptable(Fields(line))
    ensures Parse(line).Some?
    ensures Parse(line).value.tempC == ParseDecimal(ValueOf(Fields(line)[jt])).value
    ensures Parse(line).value.mq2 == TruncateTowardZero(ParseDecimal(ValueOf(Fields(line)[jm])).value)
    ensures Parse(line).value.flameRaw == TruncateTowardZero(ParseDecimal(ValueOf(Fields(line)[jf])).value)
    ensures forall j :: IsLastPair(Fields(line), j, "ms") ==> Parse(line).value.ms == ParseInt(ValueOf(Fields(line)[j])).value
    ensures !HasKey(Fields(line), "ms") ==> Parse(line).value.ms == 0
    ensures forall j :: IsLastPair(Fields(line), j, "gas") ==> Parse(line).value.gas == ValueOf(Fields(line)[j])
    ensures forall j :: IsLastPair(Fields(line), j, "light") ==> Parse(line).value.light == ValueOf(Fields(line)[j])
    ensures !HasKey(Fields(line), "gas") ==> Parse(line).value.gas == ""
    ensures !HasKey(Fields(line), "light") ==> Parse(line).value.light == ""
  {
    var toks := Fields(line);
    PairsLastWins(toks, jt, "tempC");
    PairsLastWins(toks, jm, "mq2");
    PairsLastWins(toks, jf, "flame");
    PairsKeys(toks, "ms");
    PairsKeys(toks, "gas");
    PairsKeys(toks, "light");
    assert Strip(line) != [] by {
      assert |Split(Strip(line), ',')| > 1;
    }
    if HasKey(toks, "ms") {
      var j := LastPair(toks, "ms");
      PairsLastWins(toks, j, "ms");
    }
    forall j | IsLastPair(toks, j, "ms")
      ensures Parse(line).value.ms == ParseInt(ValueOf(toks[j])).value
    {
      PairsLastWins(toks, j, "ms");
    }
    forall j | IsLastPair(toks, j, "gas")
      ensures Parse(line).value.gas == ValueOf(toks[j])
    {
      PairsLastWins(toks, j, "gas");
    }
    forall j | IsLastPair(toks, j, "light")
      ensures Parse(line).value.light == ValueOf(toks[j])
    {
      PairsLastWins(toks, j, "light");
    }
  }
}
