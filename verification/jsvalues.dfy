/** The slice of JavaScript value semantics the description endpoint relies
    on: truthiness, `String(v)`, `Number(v)`, `String.prototype.trim` and
    `Array.prototype.join`, for the scalar values a JSON request body holds. */
module JsValues {

  /** A scalar field of a parsed JSON body. A field the body does not carry
      reads as `Undefined`. JSON numbers are modelled as integers. */
  datatype Scalar = Undefined | Null | Bool(b: bool) | Num(n: int) | Str(s: string)

  /** The result of `Number(v)`: a finite integer or `NaN`. */
  datatype NumberValue = NaN | Finite(n: int)

  /** The five scalars ECMAScript ToBoolean maps to `false`. */
  const Falsy: set<Scalar> := {Undefined, Null, Bool(false), Num(0), Str("")}

  /** ECMAScript ToBoolean on scalars: `undefined`, `null`, `false`, `0` and
      `""` are falsy, everything else is truthy (`TruthyIff`). */
  predicate Truthy(v: Scalar) {
    match v
    case Undefined => false
    case Null => false
    case Bool(b) => b
    case Num(n) => n != 0
    case Str(s) => s != ""
  }

  /** Exactly the five falsy scalars are falsy. */
  lemma TruthyIff(v: Scalar)
    ensures Truthy(v) <==> v !in Falsy
  {
  }

  // ---------------------------------------------------------------------------
  // Decimal digits

  predicate IsDigit(c: char) {
    '0' <= c <= '9'
  }

  predicate AllDigits(s: string) {
    forall i :: 0 <= i < |s| ==> IsDigit(s[i])
  }

  function DigitChar(d: nat): (c: char)
    requires d < 10
    ensures IsDigit(c) && c as int - '0' as int == d
  {
    "0123456789"[d]
  }

  /** The number a string of decimal digits denotes, read left to right. */
  function DigitsValue(s: string): nat
    requires AllDigits(s)
  {
    if s == [] then 0
    else DigitsValue(s[..|s| - 1]) * 10 + (s[|s| - 1] as int - '0' as int)
  }

  /** The shortest decimal numeral of `n`, as `String(n)` writes it. */
  function NatToDecimal(n: nat): (r: string)
    ensures r != [] && AllDigits(r)
    ensures r[0] == '0' ==> n == 0
    decreases n
  {
    if n < 10 then [DigitChar(n)] else NatToDecimal(n / 10) + [DigitChar(n % 10)]
  }

  /** `NatToDecimal` is inverted by reading the digits back. */
  lemma {:induction false} DecimalRoundTrip(n: nat)
    ensures DigitsValue(NatToDecimal(n)) == n
    decreases n
  {
    if n >= 10 {
      DecimalRoundTrip(n / 10);
      var s := NatToDecimal(n);
      assert s[..|s| - 1] == NatToDecimal(n / 10);
    }
  }

  /** `String(n)` for an integer `n`. */
  function IntToDecimal(n: int): (r: string)
    ensures r != []
    ensures n >= 0 <==> r[0] != '-'
  {
    if n < 0 then "-" + NatToDecimal(-n) else NatToDecimal(n)
  }

  /** `String(v)` (also what a template literal `${v}` produces). */
  function ToText(v: Scalar): (r: string)
    ensures r == "" <==> v == Str("")
  {
    match v
    case Undefined => "undefined"
    case Null => "null"
    case Bool(b) => if b then "true" else "false"
    case Num(n) => IntToDecimal(n)
    case Str(s) => s
  }

  // ---------------------------------------------------------------------------
  // Whitespace and trim

  /** ECMAScript WhiteSpace and LineTerminator code points: the characters
      `String.prototype.trim` removes. */
  predicate IsSpace(c: char) {
    || c == '\t' || c == '\U{000B}' || c == '\U{000C}' || c == ' '
    || c == '\U{00A0}' || c == '\U{FEFF}' || c == '\U{1680}'
    || ('\U{2000}' <= c <= '\U{200A}')
    || c == '\U{202F}' || c == '\U{205F}' || c == '\U{3000}'
    || c == '\n' || c == '\r' || c == '\U{2028}' || c == '\U{2029}'
  }

  predicate AllSpace(s: string) {
    forall i :: 0 <= i < |s| ==> IsSpace(s[i])
  }

  /** Neither end of `s` is whitespace. */
  predicate Trimmed(s: string) {
    s == [] || (!IsSpace(s[0]) && !IsSpace(s[|s| - 1]))
  }

  /** The first index at or after `i` whose character is not whitespace, or
      `|s|` when there is none. */
  function SkipSpace(s: string, i: nat): (k: nat)
    requires i <= |s|
    ensures i <= k <= |s|
    ensures forall j :: i <= j < k ==> IsSpace(s[j])
    ensures k < |s| ==> !IsSpace(s[k])
    decreases |s| - i
  {
    if i < |s| && IsSpace(s[i]) then SkipSpace(s, i + 1) else i
  }

  /** The index just past the last character before `j` that is not
      whitespace, or 0 when there is none. */
  function SkipSpaceBack(s: string, j: nat): (k: nat)
    requires j <= |s|
    ensures k <= j
    ensures forall i :: k <= i < j ==> IsSpace(s[i])
    ensures 0 < k ==> !IsSpace(s[k - 1])
  {
    if 0 < j && IsSpace(s[j - 1]) then SkipSpaceBack(s, j - 1) else j
  }

  /** Where the part of `s` that `trim` keeps begins: the first character
      that is not whitespace, or `|s|` when there is none. */
  function KeptFrom(s: string): (a: nat)
    ensures a <= |s|
    ensures forall j :: 0 <= j < a ==> IsSpace(s[j])
    ensures a < |s| ==> !IsSpace(s[a])
  {
    SkipSpace(s, 0)
  }

  /** Where the part of `s` that `trim` keeps ends: just past the last
      character that is not whitespace, and never before it begins. */
  function KeptUntil(s: string): (e: nat)
    ensures KeptFrom(s) <= e <= |s|
    ensures forall j :: e <= j < |s| ==> IsSpace(s[j])
    ensures KeptFrom(s) < e ==> !IsSpace(s[e - 1])
  {
    var b := SkipSpaceBack(s, |s|);
    if b < KeptFrom(s) then KeptFrom(s) else b
  }

  /** `s.trim()`: the characters of `s` from its first to its last one that
      is not whitespace. Everything before and after them is whitespace and
      neither end of the result is; `TrimUnique` shows that these facts
      determine the result. */
  function Trim(s: string): (r: string)
    ensures |r| == KeptUntil(s) - KeptFrom(s) <= |s|
    ensures forall i :: 0 <= i < |r| ==> r[i] == s[KeptFrom(s) + i]
    ensures AllSpace(s[..KeptFrom(s)]) && AllSpace(s[KeptUntil(s)..])
    ensures Trimmed(r)
  {
    s[KeptFrom(s)..KeptUntil(s)]
  }

  /** Any split of `s` into whitespace, a string with no whitespace at its
      ends, and whitespace is the split `trim` makes. */
  lemma TrimUnique(s: string, before: string, r: string, after: string)
    requires s == before + r + after
    requires AllSpace(before) && AllSpace(after) && Trimmed(r)
    ensures Trim(s) == r
  {
    if r == [] {
      assert AllSpace(s) by {
        forall i | 0 <= i < |s|
          ensures IsSpace(s[i])
        {
          if i < |before| {
            assert s[i] == before[i];
          } else {
            assert s[i] == after[i - |before|];
          }
        }
      }
      TrimEmptyIff(s);
    } else {
      var a, e := |before|, |before| + |r|;
      assert s[a] == r[0] && s[e - 1] == r[|r| - 1];
      assert forall j :: 0 <= j < a ==> s[j] == before[j];
      assert forall j :: e <= j < |s| ==> s[j] == after[j - e];
      assert KeptFrom(s) == a;
      assert SkipSpaceBack(s, |s|) == e;
      assert s[a..e] == r;
    }
  }

  /** Trimming drops whitespace only: every other character occurs in the
      result as often as in `s`. */
  lemma TrimKeepsNonSpace(s: string, c: char)
    requires !IsSpace(c)
    ensures multiset(Trim(s))[c] == multiset(s)[c]
  {
    var before, after := s[..KeptFrom(s)], s[KeptUntil(s)..];
    assert s == before + s[KeptFrom(s)..KeptUntil(s)] + after;
    AllSpaceCountsNone(before, c);
    AllSpaceCountsNone(after, c);
  }

  /** A character that is not whitespace does not occur in a whitespace
      string. */
  lemma AllSpaceCountsNone(s: string, c: char)
    requires AllSpace(s) && !IsSpace(c)
    ensures multiset(s)[c] == 0
  {
  }

  /** Trimming removes only whitespace, so a string without whitespace at its
      ends is left as it is. */
  lemma TrimOfTrimmed(s: string)
    requires Trimmed(s)
    ensures Trim(s) == s
  {
    if s != [] {
      assert KeptFrom(s) == 0;
      assert SkipSpaceBack(s, |s|) == |s|;
    }
  }

  /** `trim` is idempotent. */
  lemma TrimIdempotent(s: string)
    ensures Trim(Trim(s)) == Trim(s)
  {
    TrimOfTrimmed(Trim(s));
  }

  /** `s.trim()` is empty exactly when `s` is all whitespace. */
  lemma TrimEmptyIff(s: string)
    ensures Trim(s) == [] <==> AllSpace(s)
  {
    var a := KeptFrom(s);
    if Trim(s) == [] {
      AllSpaceSplit(s, a);
    } else {
      assert !IsSpace(s[a]);
    }
  }

  /** A string is all whitespace exactly when both sides of any cut are. */
  lemma AllSpaceSplit(s: string, a: nat)
    requires a <= |s|
    ensures AllSpace(s) <==> AllSpace(s[..a]) && AllSpace(s[a..])
  {
    if AllSpace(s[..a]) && AllSpace(s[a..]) {
      forall i | 0 <= i < |s|
        ensures IsSpace(s[i])
      {
        if i < a {
          assert s[..a][i] == s[i];
        } else {
          assert s[a..][i - a] == s[i];
        }
      }
    }
  }

  // ---------------------------------------------------------------------------
  // Number(v)

  /** `Number(s)` for the integer-literal part of StringNumericLiteral:
      surrounding whitespace is ignored, the empty string is 0, and an
      optional sign followed by decimal digits is that integer. */
  function StringToNumber(s: string): (r: NumberValue)
    ensures AllSpace(s) ==> r == Finite(0)
  {
    TrimEmptyIff(s);
    var t := Trim(s);
    if t == [] then Finite(0)
    else if t[0] == '-' && t[1..] != [] && AllDigits(t[1..]) then Finite(-(DigitsValue(t[1..]) as int))
    else if t[0] == '+' && t[1..] != [] && AllDigits(t[1..]) then Finite(DigitsValue(t[1..]))
    else if AllDigits(t) then Finite(DigitsValue(t))
    else NaN
  }

  /** `Number(v)` (ECMAScript ToNumber) on scalars. */
  function ToNumber(v: Scalar): NumberValue {
    match v
    case Undefined => NaN
    case Null => Finite(0)
    case Bool(b) => Finite(if b then 1 else 0)
    case Num(n) => Finite(n)
    case Str(s) => StringToNumber(s)
  }

  /** A bare run of digits converts to the number it denotes. */
  lemma ParseDigits(d: string)
    requires d != [] && AllDigits(d)
    ensures StringToNumber(d) == Finite(DigitsValue(d))
  {
    assert IsDigit(d[0]) && IsDigit(d[|d| - 1]);
    TrimOfTrimmed(d);
  }

  /** A minus sign followed by digits converts to the negated number. */
  lemma ParseNegativeDigits(d: string)
    requires d != [] && AllDigits(d)
    ensures StringToNumber("-" + d) == Finite(-(DigitsValue(d) as int))
  {
    var t := "-" + d;
    SignedDigitsTrimmed(d);
    assert t[0] == '-' && t[1..] == d;
  }

  /** A minus sign followed by digits has no whitespace to trim. */
  lemma SignedDigitsTrimmed(d: string)
    requires d != [] && AllDigits(d)
    ensures Trim("-" + d) == "-" + d
  {
    var t := "-" + d;
    assert IsDigit(d[|d| - 1]) && t[|t| - 1] == d[|d| - 1];
    TrimOfTrimmed(t);
  }

  lemma NonNegativeRoundTrip(n: nat)
    ensures StringToNumber(IntToDecimal(n)) == Finite(n)
  {
    var d := NatToDecimal(n);
    DecimalRoundTrip(n);
    ParseDigits(d);
  }

  lemma NegativeRoundTrip(n: int)
    requires n < 0
    ensures StringToNumber(IntToDecimal(n)) == Finite(n)
  {
    var m: nat := -n;
    var d := NatToDecimal(m);
    assert IntToDecimal(n) == "-" + d;
    assert StringToNumber("-" + d) == Finite(n) by {
      DecimalRoundTrip(m);
      ParseNegativeDigits(d);
    }
  }

  /** Writing an integer out and converting it back is the identity:
      `Number(String(n)) === n`. */
  lemma NumberOfStringRoundTrip(n: int)
    ensures ToNumber(Str(ToText(Num(n)))) == Finite(n)
  {
    if n < 0 {
      NegativeRoundTrip(n);
    } else {
      NonNegativeRoundTrip(n);
    }
  }

  // ---------------------------------------------------------------------------
  // Removing a character class

  /** `s.replace(/[...]/g, '')` for the character class `drop`: every
      occurrence of those characters removed, the rest kept in order. */
  function RemoveChars(s: string, drop: set<char>): (r: string)
    ensures |r| <= |s|
    ensures forall i :: 0 <= i < |r| ==> r[i] !in drop
  {
    if s == [] then []
    else (if s[0] in drop then [] else [s[0]]) + RemoveChars(s[1..], drop)
  }

  /** Removal works piecewise on a concatenation. */
  lemma {:induction false} RemoveCharsAppend(a: string, b: string, drop: set<char>)
    ensures RemoveChars(a + b, drop) == RemoveChars(a, drop) + RemoveChars(b, drop)
  {
    if a == [] {
      assert a + b == b;
    } else {
      assert (a + b)[0] == a[0];
      assert (a + b)[1..] == a[1..] + b;
      RemoveCharsAppend(a[1..], b, drop);
    }
  }

  /** One character is dropped exactly when it is in the class; with
      `RemoveCharsAppend` this fixes the result of every removal. */
  lemma RemoveCharsSingle(c: char, drop: set<char>)
    ensures RemoveChars([c], drop) == if c in drop then [] else [c]
  {
    assert [c][1..] == [];
  }

  /** Removal keeps every other character as often as `s` has it. */
  lemma {:induction false} RemoveCharsKeepsOthers(s: string, drop: set<char>, c: char)
    requires c !in drop
    ensures multiset(RemoveChars(s, drop))[c] == multiset(s)[c]
  {
    if s != [] {
      assert s == [s[0]] + s[1..];
      RemoveCharsKeepsOthers(s[1..], drop, c);
    }
  }

  /** A string with none of the characters is left as it is. */
  lemma {:induction false} RemoveCharsAbsent(s: string, drop: set<char>)
    requires forall i :: 0 <= i < |s| ==> s[i] !in drop
    ensures RemoveChars(s, drop) == s
  {
    if s != [] {
      RemoveCharsAbsent(s[1..], drop);
    }
  }

  // ---------------------------------------------------------------------------
  // Array.prototype.join

  /** How `join` writes one element: `null` and `undefined` become the empty
      string, anything else its `String(v)`. */
  function JoinElement(v: Scalar): string {
    if v.Undefined? || v.Null? then "" else ToText(v)
  }

  /** `items.join(sep)`. */
  function Join(items: seq<Scalar>, sep: string): string {
    if |items| == 0 then ""
    else if |items| == 1 then JoinElement(items[0])
    else Join(items[..|items| - 1], sep) + sep + JoinElement(items[|items| - 1])
  }

  /** Joining two non-empty arrays end to end puts exactly one separator
      between their joins. */
  lemma {:induction false} JoinAppend(a: seq<Scalar>, b: seq<Scalar>, sep: string)
    requires a != [] && b != []
    ensures Join(a + b, sep) == Join(a, sep) + sep + Join(b, sep)
    decreases |b|
  {
    var last := JoinElement(b[|b| - 1]);
    assert (a + b)[|a + b| - 1] == b[|b| - 1];
    if |b| == 1 {
      assert (a + b)[..|a + b| - 1] == a;
    } else {
      var b' := b[..|b| - 1];
      assert (a + b)[..|a + b| - 1] == a + b';
      JoinAppend(a, b', sep);
      JoinRegroup(Join(a, sep), sep, Join(b', sep), last);
    }
  }

  lemma JoinRegroup(x: string, sep: string, y: string, z: string)
    ensures x + sep + y + sep + z == x + sep + (y + sep + z)
  {
  }
}
