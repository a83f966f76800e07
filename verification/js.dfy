/**
 * The few pieces of JavaScript value and string semantics that the page
 * handlers rely on: truthiness, `String(v)`, `String.prototype.trim`, the
 * `\s` / `\S` regular-expression classes, `includes`, `Array.prototype.join`
 * and property lookup on plain objects.
 */
module Js {

  datatype Option<T> = None | Some(value: T)

  /** A primitive JavaScript value as it reaches the pages from JSON or a spreadsheet. */
  datatype JsValue = Undefined | Null | Bool(b: bool) | Num(n: int) | Str(s: string)

  /**
   * What a page learns from one `fetch`: a 2xx answer with its parsed body, a
   * non-2xx status, or the request throwing (network failure, unreadable body)
   * with the thrown error's message.
   */
  datatype Response<T> = Ok(body: T) | NotOk(status: int) | Failed(message: string)

  /** A plain object: its own enumerable properties by name. */
  type JsObject = map<string, JsValue>

  /** `o[key]`: a missing property reads as `undefined`. */
  function Get(o: JsObject, key: string): (v: JsValue)
    ensures key !in o ==> v == Undefined
    ensures key in o ==> v == o[key]
  {
    if key in o then o[key] else Undefined
  }

  /** JavaScript truthiness: `undefined`, `null`, `false`, `0` and `""` are falsy. */
  predicate Truthy(v: JsValue) {
    match v
    case Undefined => false
    case Null => false
    case Bool(b) => b
    case Num(n) => n != 0
    case Str(s) => s != ""
  }

  /** The decimal digit for `d`. */
  function DigitChar(d: int): (c: char)
    requires 0 <= d < 10
    ensures '0' <= c <= '9'
    ensures c as int - '0' as int == d
  {
    ('0' as int + d) as char
  }

  /** `String(n)` for a non-negative integer: its decimal digits, most significant first. */
  function NatToString(n: nat): (r: string)
    ensures |r| >= 1
    ensures forall i :: 0 <= i < |r| ==> '0' <= r[i] <= '9'
    ensures n >= 10 <==> |r| >= 2
  {
    if n < 10 then [DigitChar(n)] else NatToString(n / 10) + [DigitChar(n % 10)]
  }

  /** `String(n)` for an integer. */
  function IntToString(n: int): (r: string)
    ensures |r| >= 1 && (r[0] == '-' <==> n < 0)
    ensures forall i :: 0 <= i < |r| ==> r[i] == '-' || '0' <= r[i] <= '9'
  {
    if n < 0 then "-" + NatToString(-n) else NatToString(n)
  }

  /** Different numbers print differently. */
  lemma {:induction false} NatToStringInjective(a: nat, b: nat)
    requires NatToString(a) == NatToString(b)
    ensures a == b
  {
    if a >= 10 && b >= 10 {
      var ra, rb := NatToString(a), NatToString(b);
      assert ra[..|ra| - 1] == NatToString(a / 10);
      assert rb[..|rb| - 1] == NatToString(b / 10);
      NatToStringInjective(a / 10, b / 10);
      assert DigitChar(a % 10) == ra[|ra| - 1] == rb[|rb| - 1] == DigitChar(b % 10);
    } else if a < 10 && b < 10 {
      assert DigitChar(a) == NatToString(a)[0];
    }
  }

  /** `String(n)` is injective on all integers. */
  lemma IntToStringInjective(a: int, b: int)
    requires IntToString(a) == IntToString(b)
    ensures a == b
  {
    if a < 0 && b < 0 {
      assert IntToString(a)[1..] == NatToString(-a);
      assert IntToString(b)[1..] == NatToString(-b);
      NatToStringInjective(-a, -b);
    } else if a >= 0 && b >= 0 {
      NatToStringInjective(a, b);
    }
  }

  /** `String(v)` for the primitive values. */
  function ToString(v: JsValue): string {
    match v
    case Undefined => "undefined"
    case Null => "null"
    case Bool(b) => if b then "true" else "false"
    case Num(n) => IntToString(n)
    case Str(s) => s
  }

  /**
   * The ECMAScript WhiteSpace and LineTerminator code points. This is the set
   * that `trim` removes and that the regular-expression class `\s` matches.
   */
  predicate IsSpace(c: char) {
    || c == '\t' || c == '\n' || c == '\U{000B}' || c == '\U{000C}' || c == '\r'
    || c == ' ' || c == '\U{00A0}' || c == '\U{1680}'
    || ('\U{2000}' <= c <= '\U{200A}')
    || c == '\U{2028}' || c == '\U{2029}' || c == '\U{202F}' || c == '\U{205F}'
    || c == '\U{3000}' || c == '\U{FEFF}'
  }

  /** Every character of `s[lo..hi]` is whitespace. */
  ghost predicate AllSpace(s: string, lo: int, hi: int)
    requires 0 <= lo <= hi <= |s|
  {
    forall k :: lo <= k < hi ==> IsSpace(s[k])
  }

  /** `s` with its leading whitespace removed. */
  function TrimStart(s: string): string {
    if s != [] && IsSpace(s[0]) then TrimStart(s[1..]) else s
  }

  /** `s` with its trailing whitespace removed. */
  function TrimEnd(s: string): string {
    if s != [] && IsSpace(s[|s| - 1]) then TrimEnd(s[..|s| - 1]) else s
  }

  /** Only whitespace is cut from the front, and the result does not start with whitespace. */
  lemma {:induction false} TrimStartCutsLeadingSpace(s: string)
    ensures |TrimStart(s)| <= |s| && TrimStart(s) == s[|s| - |TrimStart(s)|..]
    ensures AllSpace(s, 0, |s| - |TrimStart(s)|)
    ensures TrimStart(s) == [] || !IsSpace(TrimStart(s)[0])
  {
    if s != [] && IsSpace(s[0]) {
      TrimStartCutsLeadingSpace(s[1..]);
    }
  }

  /** Only whitespace is cut from the back, and the result does not end with whitespace. */
  lemma {:induction false} TrimEndCutsTrailingSpace(s: string)
    ensures |TrimEnd(s)| <= |s| && TrimEnd(s) == s[..|TrimEnd(s)|]
    ensures AllSpace(s, |TrimEnd(s)|, |s|)
    ensures TrimEnd(s) == [] || !IsSpace(TrimEnd(s)[|TrimEnd(s)| - 1])
  {
    if s != [] && IsSpace(s[|s| - 1]) {
      TrimEndCutsTrailingSpace(s[..|s| - 1]);
    }
  }

  /** `s.trim()`. */
  function Trim(s: string): string {
    TrimEnd(TrimStart(s))
  }

  /** `s.trim()` is a slice of `s` with only whitespace cut off either end, and has none left at either end. */
  lemma TrimIsInnerSlice(s: string)
    ensures exists lo, hi :: 0 <= lo <= hi <= |s| && Trim(s) == s[lo..hi] && AllSpace(s, 0, lo) && AllSpace(s, hi, |s|)
    ensures Trim(s) == [] || (!IsSpace(Trim(s)[0]) && !IsSpace(Trim(s)[|Trim(s)| - 1]))
  {
    var t := TrimStart(s);
    TrimStartCutsLeadingSpace(s);
    TrimEndCutsTrailingSpace(t);
    var lo := |s| - |t|;
    var hi := lo + |TrimEnd(t)|;
    assert Trim(s) == s[lo..hi];
    forall k | hi <= k < |s| ensures IsSpace(s[k]) {
      assert s[k] == t[k - lo];
    }
    assert AllSpace(s, hi, |s|);
    if Trim(s) != [] {
      assert Trim(s)[0] == t[0];
    }
  }

  /** `s.trim()` is empty exactly when `s` consists of whitespace only. */
  lemma BlankIffAllSpace(s: string)
    ensures Trim(s) == "" <==> AllSpace(s, 0, |s|)
  {
    TrimIsInnerSlice(s);
    TrimStartCutsLeadingSpace(s);
  }

  /** Trimming twice is trimming once. */
  lemma TrimIdempotent(s: string)
    ensures Trim(Trim(s)) == Trim(s)
  {
    var r := Trim(s);
    TrimIsInnerSlice(s);
    if r != [] {
      assert TrimStart(r) == r;
      assert TrimEnd(r) == r;
    }
  }

  /** `s.length`: the number of UTF-16 code units, two for a character outside the Basic Multilingual Plane. */
  function Utf16Length(s: string): (n: nat)
    ensures n >= |s|
    ensures n == 0 <==> s == ""
  {
    if s == [] then 0 else (if s[0] as int > 0xFFFF then 2 else 1) + Utf16Length(s[1..])
  }

  /** `s.includes(t)`: `t` occurs in `s` as a contiguous substring. */
  predicate Includes(s: string, t: string) {
    exists i :: 0 <= i <= |s| && t <= s[i..]
  }

  /** No character of `s` is `c`. */
  ghost predicate CharFree(s: string, c: char) {
    forall i :: 0 <= i < |s| ==> s[i] != c
  }

  /** A string in which the first character of `t` never occurs does not include `t`. */
  lemma NotIncludedWithoutFirstChar(s: string, t: string)
    requires t != "" && CharFree(s, t[0])
    ensures !Includes(s, t)
  {
  }

  /** What either operand of a concatenation includes, the concatenation includes. */
  lemma IncludesInConcat(a: string, b: string, t: string)
    ensures Includes(a, t) ==> Includes(a + b, t)
    ensures Includes(b, t) ==> Includes(a + b, t)
  {
    if i :| 0 <= i <= |a| && t <= a[i..] {
      assert (a + b)[i..] == a[i..] + b;
    }
    if i :| 0 <= i <= |b| && t <= b[i..] {
      assert (a + b)[|a| + i..] == b[i..];
    }
  }

  /**
   * `err.message` in a `catch (err)` block after a request that did not
   * succeed: the handler throws `notOkMessage` on a non-2xx answer, and a
   * failed request carries its own message.
   */
  function ThrownMessage<T>(r: Response<T>, notOkMessage: string): (m: string)
    requires !r.Ok?
    ensures r.NotOk? ==> m == notOkMessage
    ensures r.Failed? ==> m == r.message
  {
    if r.NotOk? then notOkMessage else r.message
  }

  /** `err.message || fallback`: the thrown message, or `fallback` when that is empty. */
  function CaughtMessage<T>(r: Response<T>, notOkMessage: string, fallback: string): (m: string)
    requires !r.Ok?
    ensures fallback != "" ==> m != ""
    ensures ThrownMessage(r, notOkMessage) != "" ==> m == ThrownMessage(r, notOkMessage)
    ensures ThrownMessage(r, notOkMessage) == "" ==> m == fallback
  {
    var thrown := ThrownMessage(r, notOkMessage);
    if thrown == "" then fallback else thrown
  }

  /** `parts.join(sep)`. */
  function Join(parts: seq<string>, sep: string): (r: string)
    ensures parts == [] ==> r == ""
    ensures |parts| == 1 ==> r == parts[0]
  {
    if parts == [] then ""
    else if |parts| == 1 then parts[0]
    else parts[0] + sep + Join(parts[1..], sep)
  }

  /**
   * Appending a part to a non-empty list appends the separator and that part
   * to the joined string, so the parts appear in order, one separator apart.
   */
  lemma {:induction false} JoinAppend(parts: seq<string>, x: string, sep: string)
    requires parts != []
    ensures Join(parts + [x], sep) == Join(parts, sep) + sep + x
  {
    if |parts| == 1 {
      assert (parts + [x])[1..] == [x];
    } else {
      assert (parts + [x])[1..] == parts[1..] + [x];
      JoinAppend(parts[1..], x, sep);
    }
  }
}
