/** The Python values that `json.load` produces, the dictionary lookup `dict.get`,
    and the text that an f-string substitutes for a value (`str`, which for a list
    or a dictionary is built from the `repr` of its elements). */
module Json {
  import opened Wrappers
  import opened Text

  /** A parsed JSON value: None, a bool, an int, a str, a list, or a dict whose
      entries are kept in insertion order. */
  datatype Value =
    | Null
    | Bool(b: bool)
    | Num(n: int)
    | Str(s: string)
    | List(items: seq<Value>)
    | Obj(fields: seq<(string, Value)>)

  /** `d.get(key)`: the value stored under `key`, or None. The dictionaries that
      `json.load` builds hold each key once; the first entry is the one returned. */
  function Get(fields: seq<(string, Value)>, key: string): (r: Option<Value>)
    ensures r.None? <==> forall i | 0 <= i < |fields| :: fields[i].0 != key
    ensures r.Some? ==> exists i | 0 <= i < |fields| :: fields[i] == (key, r.value)
  {
    if fields == [] then None
    else if fields[0].0 == key then Some(fields[0].1)
    else
      var r := Get(fields[1..], key);
      assert r.Some? ==> exists i | 0 <= i < |fields[1..]| :: fields[1..][i] == (key, r.value);
      r
  }

  /** `d.get(key, default)` */
  function GetOr(fields: seq<(string, Value)>, key: string, default: Value): (r: Value)
    ensures Get(fields, key).None? ==> r == default
    ensures Get(fields, key).Some? ==> r == Get(fields, key).value
  {
    match Get(fields, key)
    case Some(v) => v
    case None => default
  }

  function DigitChar(d: nat): (c: char)
    requires d < 10
    ensures '0' <= c <= '9'
  {
    ('0' as int + d) as char
  }

  /** The number a string of decimal digits denotes, most significant first. */
  function DecimalValue(s: string): (n: nat)
    requires forall i | 0 <= i < |s| :: '0' <= s[i] <= '9'
  {
    if s == [] then 0
    else DecimalValue(s[..|s| - 1]) * 10 + (s[|s| - 1] as int - '0' as int)
  }

  /** Decimal digits of a natural number, most significant first, without
      leading zeros. */
  function NatToDecimal(n: nat): (r: string)
    ensures |r| >= 1 && forall i | 0 <= i < |r| :: '0' <= r[i] <= '9'
    ensures |r| > 1 ==> r[0] != '0'
    ensures DecimalValue(r) == n
  {
    if n < 10 then [DigitChar(n)]
    else
      var prefix := NatToDecimal(n / 10);
      var r := prefix + [DigitChar(n % 10)];
      assert r[..|r| - 1] == prefix;
      r
  }

  /** `str(n)` for an int. */
  function IntToDecimal(n: int): (r: string)
    ensures forall i | 0 <= i < |r| :: '0' <= r[i] <= '9' || r[i] == '-'
  {
    if n < 0 then "-" + NatToDecimal(-n) else NatToDecimal(n)
  }

  /** `repr(s)` of a str, between single quotes. */
  function Quote(s: string): (r: string)
  {
    "'" + s + "'"
  }

  /** `repr(v)`; a str is shown between single quotes (the escaping Python adds for
      quotes, backslashes and unprintable characters is not part of this model). */
  function Repr(v: Value): (r: string)
    decreases v, 1
  {
    match v
    case Null => "None"
    case Bool(b) => if b then "True" else "False"
    case Num(n) => IntToDecimal(n)
    case Str(s) => Quote(s)
    case List(items) => "[" + ReprItems(items) + "]"
    case Obj(fields) => "{" + ReprFields(fields) + "}"
  }

  /** The items of a list, each as `repr` shows it, separated by ", ". */
  function ReprItems(items: seq<Value>): (r: string)
    decreases items, 0
  {
    if items == [] then ""
    else if |items| == 1 then Repr(items[0])
    else Repr(items[0]) + ", " + ReprItems(items[1..])
  }

  /** The entries of a dict, each as `'key': repr(value)`, separated by ", ". */
  function ReprFields(fields: seq<(string, Value)>): (r: string)
    decreases fields, 0
  {
    if fields == [] then ""
    else
      assert fields[0] in fields && fields[0].1 < fields[0];
      var entry := Quote(fields[0].0) + ": " + Repr(fields[0].1);
      if |fields| == 1 then entry else entry + ", " + ReprFields(fields[1..])
  }

  /** `str(v)`, the text an f-string substitutes for `{v}`. */
  function Display(v: Value): (r: string)
  {
    if v.Str? then v.s else Repr(v)
  }

  /** A value that is neither a list nor a dict. */
  predicate IsScalar(v: Value)
  {
    !v.List? && !v.Obj?
  }

  /** The text of a scalar that is not a str holds no upper-case letter after another. */
  lemma ScalarDisplayNoUpperPair(v: Value)
    requires IsScalar(v) && !v.Str?
    ensures NoUpperPair(Display(v))
  {
    if v.Num? {
      var r := IntToDecimal(v.n);
      assert forall i | 0 <= i < |r| :: !IsUpper(r[i]);
    }
  }
}
