/** The slice of JavaScript values that the category screens, the session
    context and the route guard actually inspect: `null`/`undefined` (folded
    into one), integer numbers and strings, JavaScript truthiness, plain
    objects seen as maps from property names to values, and the coercion of an
    integer to a property key (which is how `categoryMap[parentId]` finds a
    node whether `parentId` is the number 7 or the string "7"). */
module JsValue {
  import opened Wrappers

  datatype Value = Null | Num(n: int) | Str(s: string)

  /** A plain JavaScript object: property name to value. An object spread
      `{...a, ...b}` is the map union `a + b`; spreading `null` or `undefined`
      contributes nothing. */
  type Record = map<string, Value>

  /** JavaScript truthiness: `null`, `undefined`, `0` and `''` are falsy. */
  predicate Truthy(v: Value)
    ensures !Truthy(v) <==> v == Null || v == Num(0) || v == Str("")
  {
    match v
    case Null => false
    case Num(n) => n != 0
    case Str(s) => s != ""
  }

  /** `a || b` */
  function Or(a: Value, b: Value): (r: Value)
    ensures Truthy(a) ==> r == a
    ensures !Truthy(a) ==> r == b
  {
    if Truthy(a) then a else b
  }

  predicate IsDigit(c: char)
  {
    '0' <= c <= '9'
  }

  function DigitChar(d: nat): (c: char)
    requires d < 10
    ensures IsDigit(c) && (c as int) - ('0' as int) == d
  {
    ('0' as int + d) as char
  }

  /** Decimal notation of a natural number, as `String(n)` writes it. */
  function NatToString(n: nat): (s: string)
    ensures CanonicalDigits(s)
    decreases n
  {
    if n < 10 then [DigitChar(n)] else NatToString(n / 10) + [DigitChar(n % 10)]
  }

  /** `String(i)` for an integer `i`: the property key under which an object
      such as `categoryMap` stores the number `i`. */
  function IntToString(i: int): string
  {
    if i < 0 then "-" + NatToString(-i) else NatToString(i)
  }

  /** A non-empty digit string without a superfluous leading zero. */
  predicate CanonicalDigits(t: string)
  {
    |t| > 0 && (forall k :: 0 <= k < |t| ==> IsDigit(t[k])) && (|t| == 1 || t[0] != '0')
  }

  function DigitValue(c: char): nat
    requires IsDigit(c)
  {
    (c as int) - ('0' as int)
  }

  function DigitsValue(t: string): nat
    requires forall k :: 0 <= k < |t| ==> IsDigit(t[k])
  {
    if t == [] then 0 else DigitsValue(t[..|t| - 1]) * 10 + DigitValue(t[|t| - 1])
  }

  /** The integer whose property key is `s`, if there is one: a string key
      and a numeric key name the same property exactly when the string is the
      number's decimal notation. */
  function ParseCanonicalInt(s: string): Option<int>
  {
    if |s| > 1 && s[0] == '-' && CanonicalDigits(s[1..]) && s[1] != '0' then Some(0 - DigitsValue(s[1..]) as int)
    else if CanonicalDigits(s) then Some(DigitsValue(s))
    else None
  }

  lemma {:induction false} DigitsOfNat(n: nat)
    ensures DigitsValue(NatToString(n)) == n
    decreases n
  {
    var s := NatToString(n);
    if n >= 10 {
      DigitsOfNat(n / 10);
      assert s[..|s| - 1] == NatToString(n / 10);
    }
  }

  lemma {:induction false} LeadingNonZero(t: string)
    requires CanonicalDigits(t) && t[0] != '0'
    ensures DigitsValue(t) >= 1
    decreases |t|
  {
    if |t| > 1 {
      LeadingNonZero(t[..|t| - 1]);
    }
  }

  lemma {:induction false} NatOfDigits(t: string)
    requires CanonicalDigits(t)
    ensures NatToString(DigitsValue(t)) == t
    decreases |t|
  {
    if |t| > 1 {
      var init := t[..|t| - 1];
      assert CanonicalDigits(init);
      NatOfDigits(init);
      LeadingNonZero(init);
      var v := DigitsValue(t);
      assert v / 10 == DigitsValue(init);
      assert init + [t[|t| - 1]] == t;
    }
  }

  /** Numeric and string property keys agree: parsing the key of `i` gives
      `i` back, and a string that parses to `i` is the key of `i`. */
  lemma PropertyKeyRoundTrip(i: int, s: string)
    ensures ParseCanonicalInt(IntToString(i)) == Some(i)
    ensures ParseCanonicalInt(s) == Some(i) ==> IntToString(i) == s
  {
    if i < 0 {
      var t := NatToString(-i);
      DigitsOfNat(-i);
      assert ("-" + t)[1..] == t;
    } else {
      DigitsOfNat(i);
    }
    if ParseCanonicalInt(s) == Some(i) {
      if |s| > 1 && s[0] == '-' && CanonicalDigits(s[1..]) && s[1] != '0' {
        NatOfDigits(s[1..]);
        LeadingNonZero(s[1..]);
        assert s == "-" + s[1..];
      } else {
        NatOfDigits(s);
      }
    }
  }
}
