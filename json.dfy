/**
 * The parsed body of a CrossRef.org answer (`requests.get(url).json()`), and the few Python
 * operations the field mappers apply to it: `d[key]`, `v[i]`, `len(v)` and `str(v)`, each
 * with the exception Python raises on a value of the wrong type.
 */
module JsonValue {

  import opened Wrappers
  import opened Text

  /** A JSON value as Python's `json` module returns it; numbers are integers here */
  datatype Json =
    | JNull
    | JBool(b: bool)
    | JNum(n: int)
    | JStr(s: string)
    | JArr(items: seq<Json>)
    | JObj(fields: map<string, Json>)

  /** `v[key]` with a text key: only a dictionary has one, and it may be missing */
  function Lookup(v: Json, key: string): (r: Result<Json>)
    ensures r.Success? <==> v.JObj? && key in v.fields
    ensures r.Success? ==> r.value == v.fields[key]
    ensures r.Failure? ==> r.error == (if v.JObj? then KeyError else TypeError)
  {
    match v
    case JObj(fields) => if key in fields then Success(fields[key]) else Failure(KeyError)
    case _ => Failure(TypeError)
  }

  /** `len(v)`: defined on texts, lists and dictionaries */
  function Len(v: Json): (r: Result<nat>)
    ensures r.Success? <==> v.JStr? || v.JArr? || v.JObj?
    ensures r.Failure? ==> r.error == TypeError
  {
    match v
    case JStr(s) => Success(|s|)
    case JArr(items) => Success(|items|)
    case JObj(fields) => Success(|fields|)
    case _ => Failure(TypeError)
  }

  /**
   * `v[i]` for `0 <= i`: an element of a list, a one-character text of a text; a dictionary
   * from JSON has only text keys, so an integer key is missing.
   */
  function ElemAt(v: Json, i: nat): (r: Result<Json>)
    ensures r.Success? <==> (v.JArr? && i < |v.items|) || (v.JStr? && i < |v.s|)
    ensures r.Success? && v.JArr? ==> r.value == v.items[i]
    ensures r.Success? && v.JStr? ==> r.value == JStr([v.s[i]])
    ensures r.Failure? ==> r.error == (if v.JArr? || v.JStr? then IndexError else if v.JObj? then KeyError else TypeError)
  {
    match v
    case JArr(items) => if i < |items| then Success(items[i]) else Failure(IndexError)
    case JStr(s) => if i < |s| then Success(JStr([s[i]])) else Failure(IndexError)
    case JObj(_) => Failure(KeyError)
    case _ => Failure(TypeError)
  }

  /** `v[0]` */
  function Index0(v: Json): Result<Json> { ElemAt(v, 0) }

  /** The decimal digit for `d` */
  function DigitChar(d: nat): (c: char)
    requires d < 10
    ensures IsDigit(c)
  {
    ('0' as int + d) as char
  }

  function DigitValue(c: char): nat requires IsDigit(c) { c as int - '0' as int }

  /** `str(n)` for a natural number: its decimal digits */
  function NatText(n: nat): (s: string)
    ensures |s| > 0 && AllDigits(s)
    ensures |s| == 1 || s[0] != '0'
    decreases n
  {
    if n < 10 then [DigitChar(n)] else NatText(n / 10) + [DigitChar(n % 10)]
  }

  /** `int(s)` for a text of decimal digits */
  function NatValue(s: string): nat
    requires AllDigits(s)
    decreases |s|
  {
    if |s| == 0 then 0 else NatValue(s[..|s| - 1]) * 10 + DigitValue(s[|s| - 1])
  }

  /** Reading the digits of `n` back gives `n` */
  lemma {:induction false} NatTextValue(n: nat)
    ensures NatValue(NatText(n)) == n
    decreases n
  {
    var s := NatText(n);
    if n >= 10 {
      NatTextValue(n / 10);
      assert s[..|s| - 1] == NatText(n / 10);
    }
  }

  /** `str(n)` for an integer: a minus sign before the digits of a negative number */
  function IntText(n: int): (s: string)
    ensures n >= 0 ==> AllDigits(s) && NatValue(s) == n
    ensures n < 0 ==> |s| > 1 && s[0] == '-' && AllDigits(s[1..]) && NatValue(s[1..]) == -n
  {
    if n >= 0 then
      NatTextValue(n);
      NatText(n)
    else
      NatTextValue(-n);
      var s := "-" + NatText(-n);
      assert s[1..] == NatText(-n);
      s
  }

  /**
   * `str(v)` for a value that is not a container; `str` of a list or a dictionary is Python
   * source text, which is not modelled, so it has no value here.
   */
  function StrOf(v: Json): (r: Option<string>)
    ensures r.None? <==> v.JArr? || v.JObj?
    ensures v.JStr? ==> r == Some(v.s)
    ensures v.JNum? ==> r == Some(IntText(v.n))
  {
    match v
    case JNull => Some("None")
    case JBool(b) => Some(if b then "True" else "False")
    case JNum(n) => Some(IntText(n))
    case JStr(s) => Some(s)
    case _ => None
  }
}
