/**
 * The emptiness helper `fun.isEmpty` / `fun.hasValue`: a total decision, over JavaScript values,
 * of whether a value counts as absent so that a default replaces it. The tests are made in a fixed
 * order: nullish, string, array, Date, other object, anything else.
 */
module Emptiness {
  import opened Wrappers

  /**
   * The JavaScript values the helper can be given. `Obj` is any object that is neither an array
   * nor a Date (plain objects, but also Maps and Sets), described by its own enumerable keys;
   * a Date is described by its time value, `None` standing for NaN (an "Invalid Date").
   */
  datatype JsValue =
    | Undefined
    | Null
    | Str(s: string)
    | Arr(elems: seq<JsValue>)
    | DateObj(time: Option<int>)
    | Obj(keys: seq<string>)
    | Num(x: real)
    | NaN
    | Bool(b: bool)
    | BigInt(i: int)
    | Sym
    | Func

  /** The code points `String.prototype.trim` removes: WhiteSpace and LineTerminator of ECMA-262. */
  predicate IsWhiteSpace(c: char) {
    var n := c as int;
    n == 0x09 || n == 0x0A || n == 0x0B || n == 0x0C || n == 0x0D || n == 0x20 || n == 0xA0
    || n == 0x1680 || (0x2000 <= n <= 0x200A) || n == 0x2028 || n == 0x2029 || n == 0x202F
    || n == 0x205F || n == 0x3000 || n == 0xFEFF
  }

  predicate AllWhiteSpace(s: string) {
    forall i :: 0 <= i < |s| ==> IsWhiteSpace(s[i])
  }

  /** `s` without its leading white space. */
  function TrimStart(s: string): (r: string)
    ensures |r| <= |s| && r == s[|s| - |r|..]
    ensures AllWhiteSpace(s[..|s| - |r|])
    ensures r == [] || !IsWhiteSpace(r[0])
  {
    if s != [] && IsWhiteSpace(s[0]) then
      var r := TrimStart(s[1..]);
      assert s[..|s| - |r|] == [s[0]] + s[1..][..|s| - 1 - |r|];
      r
    else s
  }

  /** `s` without its trailing white space. */
  function TrimEnd(s: string): (r: string)
    ensures |r| <= |s| && r == s[..|r|]
    ensures AllWhiteSpace(s[|r|..])
    ensures r == [] || !IsWhiteSpace(r[|r| - 1])
  {
    if s != [] && IsWhiteSpace(s[|s| - 1]) then
      var r := TrimEnd(s[..|s| - 1]);
      assert s[|r|..] == s[..|s| - 1][|r|..] + [s[|s| - 1]];
      r
    else s
  }

  /** `s.trim()`. */
  function Trim(s: string): string {
    TrimEnd(TrimStart(s))
  }

  /** A string trims to nothing exactly when every character of it is white space. */
  lemma TrimEmptyIff(s: string)
    ensures |Trim(s)| == 0 <==> AllWhiteSpace(s)
  {
    var r := TrimStart(s);
    if r != [] {
      assert !IsWhiteSpace(s[|s| - |r|]);
    } else {
      assert s[..|s|] == s;
    }
  }

  /**
   * `fun.isEmpty(value)`: nullish values, strings that trim to nothing, empty arrays, invalid Dates
   * and objects without own keys are empty; a valid Date is not, although it has no own keys,
   * and neither is any number (0 and NaN included), boolean, bigint, symbol or function.
   */
  function IsEmpty(v: JsValue): (r: bool)
    ensures v.Str? ==> (r <==> AllWhiteSpace(v.s))
    ensures r ==> v.Undefined? || v.Null? || v.Str? || v.Arr? || v.DateObj? || v.Obj?
  {
    if v.Undefined? || v.Null? then true
    else if v.Str? then (TrimEmptyIff(v.s); |Trim(v.s)| == 0)
    else if v.Arr? then |v.elems| == 0
    else if v.DateObj? then v.time.None?
    else if v.Obj? then |v.keys| == 0
    else false
  }

  /**
   * `fun.hasValue(value)`, the negation of `isEmpty`: a string has a value when some character of it
   * is not white space, an array when it has an element (whatever that element is), a Date when its
   * time value is a number, an object when it has an own key; values of the other kinds always do.
   */
  function HasValue(v: JsValue): (r: bool)
    ensures r <==> match v
      case Undefined => false
      case Null => false
      case Str(s) => exists i :: 0 <= i < |s| && !IsWhiteSpace(s[i])
      case Arr(elems) => elems != []
      case DateObj(time) => time.Some?
      case Obj(keys) => keys != []
      case _ => true
  {
    !IsEmpty(v)
  }
}
