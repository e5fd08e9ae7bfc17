/** The JSON-compatible payloads that conditions and condition sets are
    serialized to and deserialized from, and the text Python's `%s`
    formatting produces for them. */
module Payload {

  /** A JSON-compatible value. `JNull` plays the part of Python's `None`. */
  datatype Json =
    | JNull
    | JBool(b: bool)
    | JNum(n: int)
    | JStr(s: string)
    | JArr(items: seq<Json>)
    | JObj(fields: map<string, Json>)

  /** A payload object: a dictionary with string keys. */
  type Object = map<string, Json>

  /** The number a string of decimal digits spells, most significant first. */
  function DecimalValue(s: string): nat
    requires forall k :: 0 <= k < |s| ==> '0' <= s[k] <= '9'
  {
    if |s| == 0 then 0
    else DecimalValue(s[..|s| - 1]) * 10 + (s[|s| - 1] - '0') as nat
  }

  /** Decimal digits of a natural number, most significant first, as
      Python's `str` writes them. */
  function Digits(n: nat): (r: string)
    ensures |r| > 0
    ensures forall k :: 0 <= k < |r| ==> '0' <= r[k] <= '9'
    ensures DecimalValue(r) == n
    ensures n >= 10 ==> r[0] != '0'
    decreases n
  {
    var d := ['0' + (n % 10) as char];
    if n < 10 then d
    else
      var r := Digits(n / 10) + d;
      assert r[..|r| - 1] == Digits(n / 10);
      r
  }

  /** The text `"%s" % j` gives in Python for the scalar values; lists and
      dictionaries are abbreviated. */
  function Show(j: Json): (text: string)
    ensures j == JNull ==> text == "None"
    ensures j.JBool? ==> text == if j.b then "True" else "False"
    ensures j.JStr? ==> text == j.s
    ensures j.JNum? && j.n >= 0 ==> text == Digits(j.n)
    ensures j.JNum? && j.n < 0 ==> text == "-" + Digits(-j.n)
  {
    match j
    case JNull => "None"
    case JBool(b) => if b then "True" else "False"
    case JNum(n) => if n < 0 then "-" + Digits(-n) else Digits(n)
    case JStr(s) => s
    case JArr(_) => "[...]"
    case JObj(_) => "{...}"
  }

  /** `t` occurs in `s` as a contiguous piece. */
  predicate Contains(s: string, t: string)
  {
    exists k :: 0 <= k <= |s| - |t| && OccursAt(s, t, k)
  }

  /** `t` occurs in `s` starting at position `k`. */
  predicate OccursAt(s: string, t: string, k: int)
    requires 0 <= k <= |s| - |t|
  {
    s[k..k + |t|] == t
  }
}
