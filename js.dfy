/** The bits of JavaScript semantics the handlers lean on: truthiness of request
    body fields (`if (!title || !content)`), `parseInt` of a route parameter, the
    decimal text that a template literal `${id}` produces, and the case-insensitive
    substring test that Postgres's ILIKE '%q%' performs on ASCII text. */
module Js {
  import opened Wrappers

  /** A request body field as the JSON body parser delivers it: absent (or null), or a string. */
  datatype Field = Missing | Text(s: string)

  /** JavaScript truthiness of such a field: undefined, null and "" are falsy. */
  predicate Truthy(f: Field)
  {
    f.Text? && f.s != ""
  }

  /** The characters `parseInt` skips before the number (WhiteSpace and LineTerminator of ECMAScript). */
  predicate IsWhiteSpace(c: char)
  {
    c in {' ', '\t', '\n', '\r', '\U{B}', '\U{C}', '\U{A0}', '\U{1680}', '\U{2028}', '\U{2029}',
          '\U{202F}', '\U{205F}', '\U{3000}', '\U{FEFF}'}
    || ('\U{2000}' <= c <= '\U{200A}')
  }

  function TrimStart(s: string): (r: string)
    ensures |r| <= |s| && r == s[|s| - |r|..]
    ensures |r| > 0 ==> !IsWhiteSpace(r[0])
    ensures forall i :: 0 <= i < |s| - |r| ==> IsWhiteSpace(s[i])
  {
    if |s| > 0 && IsWhiteSpace(s[0]) then TrimStart(s[1..]) else s
  }

  /** The value of a digit in radix up to 36 (letters of either case count from 10); 36 for anything else. */
  function DigitValue(c: char): nat
  {
    if '0' <= c <= '9' then c as int - '0' as int
    else if 'a' <= c <= 'z' then c as int - 'a' as int + 10
    else if 'A' <= c <= 'Z' then c as int - 'A' as int + 10
    else 36
  }

  /** The longest prefix of `s` made of digits of the given radix. */
  function LeadingDigits(s: string, radix: nat): (r: string)
    ensures |r| <= |s| && r == s[..|r|]
    ensures forall i :: 0 <= i < |r| ==> DigitValue(r[i]) < radix
    ensures |r| < |s| ==> DigitValue(s[|r|]) >= radix
  {
    if |s| > 0 && DigitValue(s[0]) < radix then [s[0]] + LeadingDigits(s[1..], radix) else []
  }

  /** The number a string of digits denotes in the given radix. */
  function Value(digits: string, radix: nat): nat
    decreases |digits|
  {
    if |digits| == 0 then 0
    else Value(digits[..|digits| - 1], radix) * radix + DigitValue(digits[|digits| - 1])
  }

  /** `parseInt(s)` with no radix: skip white space, take a sign, read hexadecimal after a
      "0x"/"0X" prefix and decimal otherwise, stop at the first non-digit; `None` is NaN. */
  function ParseInt(s: string): (r: Option<int>)
    ensures r.None? <==> |LeadingDigits(Unprefixed(Unsigned(TrimStart(s))), Radix(Unsigned(TrimStart(s))))| == 0
  {
    var t := TrimStart(s);
    var u := Unsigned(t);
    var digits := LeadingDigits(Unprefixed(u), Radix(u));
    var magnitude: int := Value(digits, Radix(u));
    if |digits| == 0 then None
    else if |t| > 0 && t[0] == '-' then Some(-magnitude)
    else Some(magnitude)
  }

  function Unsigned(t: string): string
  {
    if |t| > 0 && (t[0] == '-' || t[0] == '+') then t[1..] else t
  }

  predicate HasHexPrefix(u: string)
  {
    |u| >= 2 && u[0] == '0' && (u[1] == 'x' || u[1] == 'X')
  }

  function Radix(u: string): nat
  {
    if HasHexPrefix(u) then 16 else 10
  }

  function Unprefixed(u: string): string
  {
    if HasHexPrefix(u) then u[2..] else u
  }

  function DigitChar(d: nat): char
    requires d < 10
  {
    ('0' as int + d) as char
  }

  /** The decimal numeral of a natural number, without leading zeros. */
  function NatString(n: nat): (r: string)
    ensures |r| > 0
    ensures forall i :: 0 <= i < |r| ==> '0' <= r[i] <= '9'
    ensures |r| > 1 ==> r[0] != '0'
    decreases n
  {
    if n < 10 then [DigitChar(n)] else NatString(n / 10) + [DigitChar(n % 10)]
  }

  /** The text a template literal `${n}` gives for an integer number. */
  function DecimalString(n: int): string
  {
    if n < 0 then "-" + NatString(-n) else NatString(n)
  }

  /** The text `${id}` gives for the result of `parseInt`: NaN prints as "NaN". */
  function IdText(id: Option<int>): string
  {
    match id
    case Some(n) => DecimalString(n)
    case None => "NaN"
  }

  lemma LeadingDigitsOfDecimal(s: string)
    requires forall i :: 0 <= i < |s| ==> '0' <= s[i] <= '9'
    ensures LeadingDigits(s, 10) == s
  {
  }

  lemma {:induction false} ValueOfNatString(n: nat)
    ensures Value(NatString(n), 10) == n
    decreases n
  {
    if n >= 10 {
      ValueOfNatString(n / 10);
      var r := NatString(n);
      assert r[..|r| - 1] == NatString(n / 10);
    }
  }

  /** The numeral of a natural number reads back as that number. */
  lemma ParseIntOfNatString(m: nat)
    ensures ParseInt(NatString(m)) == Some(m)
  {
    var digits := NatString(m);
    assert TrimStart(digits) == digits;
    assert Unsigned(digits) == digits;
    assert !HasHexPrefix(digits);
    LeadingDigitsOfDecimal(digits);
    ValueOfNatString(m);
  }

  /** `parseInt` reads back exactly the integer whose decimal text `${n}` printed. */
  lemma ParseIntOfDecimalString(n: int)
    ensures ParseInt(DecimalString(n)) == Some(n)
  {
    if n >= 0 {
      ParseIntOfNatString(n);
    } else {
      var digits := NatString(-n);
      var s := DecimalString(n);
      assert s == "-" + digits;
      assert TrimStart(s) == s;
      assert Unsigned(s) == digits;
      assert !HasHexPrefix(digits);
      LeadingDigitsOfDecimal(digits);
      ValueOfNatString(-n);
    }
  }

  /** The radix a prefix selects: hexadecimal after "0x" or "0X", decimal with no prefix. */
  function PrefixRadix(prefix: string): nat
  {
    if prefix == "" then 10 else 16
  }

  /** `s` is leading white space `ws`, an optional sign, an optional "0x"/"0X" prefix, a non-empty
      run of digits of the radix that prefix selects, and a `rest` that does not go on with such a
      digit; with no prefix, the digits themselves must not begin a "0x" prefix. */
  ghost predicate Numeral(s: string, ws: string, sign: string, prefix: string, digits: string, rest: string)
  {
    && s == ws + sign + prefix + digits + rest
    && (forall i :: 0 <= i < |ws| ==> IsWhiteSpace(ws[i]))
    && (sign == "" || sign == "+" || sign == "-")
    && (prefix == "" || prefix == "0x" || prefix == "0X")
    && |digits| > 0
    && (forall i :: 0 <= i < |digits| ==> DigitValue(digits[i]) < PrefixRadix(prefix))
    && (|rest| > 0 ==> DigitValue(rest[0]) >= PrefixRadix(prefix))
    && (prefix == "" ==> !HasHexPrefix(digits + rest))
  }

  /** The integer such a numeral denotes. */
  function SignedValue(sign: string, prefix: string, digits: string): int
  {
    var magnitude: int := Value(digits, PrefixRadix(prefix));
    if sign == "-" then -magnitude else magnitude
  }

  lemma {:induction false} TrimStartOfWhiteSpace(ws: string, t: string)
    requires forall i :: 0 <= i < |ws| ==> IsWhiteSpace(ws[i])
    requires |t| > 0 ==> !IsWhiteSpace(t[0])
    ensures TrimStart(ws + t) == t
    decreases |ws|
  {
    if |ws| == 0 {
      assert ws + t == t;
    } else {
      assert (ws + t)[1..] == ws[1..] + t;
      TrimStartOfWhiteSpace(ws[1..], t);
    }
  }

  lemma {:induction false} LeadingDigitsOfRun(digits: string, rest: string, radix: nat)
    requires forall i :: 0 <= i < |digits| ==> DigitValue(digits[i]) < radix
    requires |rest| > 0 ==> DigitValue(rest[0]) >= radix
    ensures LeadingDigits(digits + rest, radix) == digits
    decreases |digits|
  {
    if |digits| == 0 {
      assert digits + rest == rest;
    } else {
      assert (digits + rest)[1..] == digits[1..] + rest;
      LeadingDigitsOfRun(digits[1..], rest, radix);
    }
  }

  /** A digit of any radix is neither white space nor a sign. */
  lemma DigitIsPlain(c: char)
    requires DigitValue(c) < 36
    ensures !IsWhiteSpace(c) && c != '-' && c != '+'
  {
  }

  /** What the sign step of `parseInt` sees after the white space of a numeral. */
  lemma SignStep(sign: string, u: string)
    requires sign == "" || sign == "+" || sign == "-"
    requires |u| > 0 && DigitValue(u[0]) < 36
    ensures |sign + u| > 0 && !IsWhiteSpace((sign + u)[0])
    ensures Unsigned(sign + u) == u
    ensures (sign + u)[0] == '-' <==> sign == "-"
  {
    DigitIsPlain(u[0]);
    if sign != "" {
      assert (sign + u)[1..] == u;
    } else {
      assert sign + u == u;
    }
  }

  /** What the prefix step of `parseInt` sees after the sign of a numeral. */
  lemma PrefixStep(prefix: string, v: string)
    requires prefix == "" || prefix == "0x" || prefix == "0X"
    requires prefix == "" ==> !HasHexPrefix(v)
    ensures Radix(prefix + v) == PrefixRadix(prefix)
    ensures Unprefixed(prefix + v) == v
    ensures |prefix + v| > 0 && |v| > 0 ==> DigitValue((prefix + v)[0]) == if prefix == "" then DigitValue(v[0]) else 0
  {
    if prefix != "" {
      assert (prefix + v)[2..] == v;
    } else {
      assert prefix + v == v;
    }
  }

  /** The parts of a numeral, grouped the way `parseInt` peels them off. */
  lemma NumeralSplit(s: string, ws: string, sign: string, prefix: string, digits: string, rest: string)
    requires Numeral(s, ws, sign, prefix, digits, rest)
    ensures s == ws + (sign + (prefix + (digits + rest)))
  {
  }

  /** After its sign, a numeral starts with a digit of some radix ('0' of the prefix, or its first digit). */
  lemma NumeralFirstDigit(s: string, ws: string, sign: string, prefix: string, digits: string, rest: string)
    requires Numeral(s, ws, sign, prefix, digits, rest)
    ensures |prefix + (digits + rest)| > 0 && DigitValue((prefix + (digits + rest))[0]) < 36
  {
    assert (digits + rest)[0] == digits[0];
    PrefixStep(prefix, digits + rest);
  }

  /** Skipping white space leaves a numeral's sign, prefix, digits and rest. */
  lemma NumeralTrim(s: string, ws: string, sign: string, prefix: string, digits: string, rest: string)
    requires Numeral(s, ws, sign, prefix, digits, rest)
    ensures TrimStart(s) == sign + (prefix + (digits + rest))
  {
    NumeralSplit(s, ws, sign, prefix, digits, rest);
    NumeralFirstDigit(s, ws, sign, prefix, digits, rest);
    SignStep(sign, prefix + (digits + rest));
    TrimStartOfWhiteSpace(ws, sign + (prefix + (digits + rest)));
  }

  /** `parseInt` put together from the results of its steps. */
  lemma ParseIntOfSteps(s: string, t: string, u: string, v: string, sign: string, prefix: string, digits: string)
    requires TrimStart(s) == t && Unsigned(t) == u && Unprefixed(u) == v && Radix(u) == PrefixRadix(prefix)
    requires LeadingDigits(v, PrefixRadix(prefix)) == digits && |digits| > 0
    requires (|t| > 0 && t[0] == '-') <==> sign == "-"
    ensures ParseInt(s) == Some(SignedValue(sign, prefix, digits))
  {
  }

  /** What `parseInt` makes of a numeral once the white space is gone. */
  lemma ParseIntAfterTrim(s: string, sign: string, prefix: string, digits: string, rest: string)
    requires TrimStart(s) == sign + (prefix + (digits + rest))
    requires sign == "" || sign == "+" || sign == "-"
    requires prefix == "" || prefix == "0x" || prefix == "0X"
    requires |digits| > 0
    requires forall i :: 0 <= i < |digits| ==> DigitValue(digits[i]) < PrefixRadix(prefix)
    requires |rest| > 0 ==> DigitValue(rest[0]) >= PrefixRadix(prefix)
    requires prefix == "" ==> !HasHexPrefix(digits + rest)
    ensures ParseInt(s) == Some(SignedValue(sign, prefix, digits))
  {
    assert (digits + rest)[0] == digits[0];
    PrefixStep(prefix, digits + rest);
    SignStep(sign, prefix + (digits + rest));
    LeadingDigitsOfRun(digits, rest, PrefixRadix(prefix));
    ParseIntOfSteps(s, sign + (prefix + (digits + rest)), prefix + (digits + rest), digits + rest, sign, prefix, digits);
  }

  /** Every numeral reads as the integer it denotes: `parseInt` skips the white space, applies the
      sign, switches to hexadecimal after the prefix and stops where the digits stop. */
  lemma ParseIntOfNumeral(s: string, ws: string, sign: string, prefix: string, digits: string, rest: string)
    requires Numeral(s, ws, sign, prefix, digits, rest)
    ensures ParseInt(s) == Some(SignedValue(sign, prefix, digits))
  {
    NumeralTrim(s, ws, sign, prefix, digits, rest);
    ParseIntAfterTrim(s, sign, prefix, digits, rest);
  }

  /** The sign step of `parseInt`, undone: `t` is the sign it strips followed by what is left. */
  lemma SignOf(t: string) returns (sign: string)
    ensures sign == "" || sign == "+" || sign == "-"
    ensures t == sign + Unsigned(t)
    ensures (|t| > 0 && t[0] == '-') <==> sign == "-"
  {
    if |t| > 0 && (t[0] == '-' || t[0] == '+') {
      sign := t[..1];
      assert t == t[..1] + t[1..];
    } else {
      sign := "";
      assert t == "" + t;
    }
  }

  /** The prefix step of `parseInt`, undone: `u` is the prefix it strips followed by what is left. */
  lemma PrefixOf(u: string) returns (prefix: string)
    ensures prefix == "" || prefix == "0x" || prefix == "0X"
    ensures u == prefix + Unprefixed(u)
    ensures Radix(u) == PrefixRadix(prefix)
    ensures prefix == "" ==> !HasHexPrefix(Unprefixed(u))
  {
    if HasHexPrefix(u) {
      prefix := u[..2];
      assert u == u[..2] + u[2..];
    } else {
      prefix := "";
      assert u == "" + u;
    }
  }

  /** The pieces `parseInt`'s steps cut off, put back together, make a numeral. */
  lemma NumeralOfPieces(s: string, ws: string, t: string, sign: string, u: string, prefix: string, v: string,
                        digits: string, rest: string)
    requires s == ws + t && forall i :: 0 <= i < |ws| ==> IsWhiteSpace(ws[i])
    requires t == sign + u && (sign == "" || sign == "+" || sign == "-")
    requires u == prefix + v && (prefix == "" || prefix == "0x" || prefix == "0X")
    requires prefix == "" ==> !HasHexPrefix(v)
    requires v == digits + rest && |digits| > 0
    requires forall i :: 0 <= i < |digits| ==> DigitValue(digits[i]) < PrefixRadix(prefix)
    requires |rest| > 0 ==> DigitValue(rest[0]) >= PrefixRadix(prefix)
    ensures Numeral(s, ws, sign, prefix, digits, rest)
  {
  }

  /** What TrimStart skips is white space, and it is all that precedes the result. */
  lemma TrimStartSplit(s: string) returns (ws: string)
    ensures s == ws + TrimStart(s)
    ensures forall i :: 0 <= i < |ws| ==> IsWhiteSpace(ws[i])
  {
    ws := s[..|s| - |TrimStart(s)|];
    assert forall i :: 0 <= i < |ws| ==> ws[i] == s[i];
  }

  /** What LeadingDigits takes is followed by the rest, which does not go on with a digit. */
  lemma LeadingDigitsSplit(v: string, radix: nat) returns (rest: string)
    ensures v == LeadingDigits(v, radix) + rest
    ensures |rest| > 0 ==> DigitValue(rest[0]) >= radix
  {
    rest := v[|LeadingDigits(v, radix)|..];
  }

  /** Conversely, whatever `parseInt` reads as a number is a numeral, cut where `parseInt` cuts it. */
  lemma NumeralOfParseInt(s: string) returns (ws: string, sign: string, prefix: string, digits: string, rest: string)
    requires ParseInt(s).Some?
    ensures Numeral(s, ws, sign, prefix, digits, rest)
  {
    var t := TrimStart(s);
    ws := TrimStartSplit(s);
    sign := SignOf(t);
    var u := Unsigned(t);
    prefix := PrefixOf(u);
    var v := Unprefixed(u);
    digits := LeadingDigits(v, Radix(u));
    rest := LeadingDigitsSplit(v, Radix(u));
    assert |digits| > 0;
    NumeralOfPieces(s, ws, t, sign, u, prefix, v, digits, rest);
  }

  /** `parseInt(s)` is the number n exactly when `s` is a numeral denoting n. */
  lemma ParseIntSome(s: string, n: int)
    ensures ParseInt(s) == Some(n) <==>
      exists ws, sign, prefix, digits, rest :: Numeral(s, ws, sign, prefix, digits, rest) && n == SignedValue(sign, prefix, digits)
  {
    if ParseInt(s) == Some(n) {
      var ws, sign, prefix, digits, rest := NumeralOfParseInt(s);
      ParseIntOfNumeral(s, ws, sign, prefix, digits, rest);
    }
    if exists ws, sign, prefix, digits, rest :: Numeral(s, ws, sign, prefix, digits, rest) && n == SignedValue(sign, prefix, digits) {
      var ws, sign, prefix, digits, rest :| Numeral(s, ws, sign, prefix, digits, rest) && n == SignedValue(sign, prefix, digits);
      ParseIntOfNumeral(s, ws, sign, prefix, digits, rest);
    }
  }

  /** `parseInt(s)` is NaN exactly when no way of cutting `s` makes a numeral. */
  lemma ParseIntNaN(s: string)
    ensures ParseInt(s).None? <==> !exists ws, sign, prefix, digits, rest :: Numeral(s, ws, sign, prefix, digits, rest)
  {
    if ParseInt(s).Some? {
      var ws, sign, prefix, digits, rest := NumeralOfParseInt(s);
    }
    if exists ws, sign, prefix, digits, rest :: Numeral(s, ws, sign, prefix, digits, rest) {
      var ws, sign, prefix, digits, rest :| Numeral(s, ws, sign, prefix, digits, rest);
      ParseIntOfNumeral(s, ws, sign, prefix, digits, rest);
    }
  }

  /** A bare "0x" prefix with no hexadecimal digit after it is NaN. */
  lemma ParseIntOfBarePrefix()
    ensures ParseInt("0x") == None
  {
    DigitIsPlain('0');
    assert TrimStart("0x") == "0x";
    assert Unsigned("0x") == "0x";
    assert Unprefixed("0x") == [];
    assert LeadingDigits([], 16) == [];
  }

  /** A signed hexadecimal numeral after white space reads in radix 16. */
  lemma ParseIntOfSignedHex()
    ensures ParseInt(" -0x1F") == Some(-31)
  {
    var digits := "1F";
    assert forall i :: 0 <= i < |digits| ==> DigitValue(digits[i]) < 16;
    assert Value(digits, 16) == 31 by {
      assert digits[..1] == "1";
      assert "1"[..0] == [];
    }
    assert " -0x1F" == " " + "-" + "0x" + digits + "";
    assert Numeral(" -0x1F", " ", "-", "0x", digits, "");
    ParseIntOfNumeral(" -0x1F", " ", "-", "0x", digits, "");
  }

  /** Reading stops at the first character that is not a digit. */
  lemma ParseIntOfTrailingText()
    ensures ParseInt("12abc") == Some(12)
  {
    var digits := "12";
    assert forall i :: 0 <= i < |digits| ==> DigitValue(digits[i]) < 10;
    assert Value(digits, 10) == 12 by {
      assert digits[..1] == "1";
      assert "1"[..0] == [];
    }
    assert "12abc" == "" + "" + "" + digits + "abc";
    assert !HasHexPrefix("12abc");
    assert Numeral("12abc", "", "", "", digits, "abc");
    ParseIntOfNumeral("12abc", "", "", "", digits, "abc");
  }

  /** A string that starts with a letter is NaN. */
  lemma ParseIntOfText()
    ensures ParseInt("abc") == None
  {
    DigitIsPlain('a');
    assert TrimStart("abc") == "abc";
    assert Unsigned("abc") == "abc";
    assert !HasHexPrefix("abc");
    assert LeadingDigits("abc", 10) == [];
  }

  /** ASCII lower case, the part of Postgres's case folding this model captures. */
  function Lower(c: char): char
  {
    if 'A' <= c <= 'Z' then (c as int + 32) as char else c
  }

  function LowerString(s: string): (r: string)
    ensures |r| == |s|
    ensures forall i :: 0 <= i < |s| ==> r[i] == Lower(s[i])
  {
    if |s| == 0 then [] else [Lower(s[0])] + LowerString(s[1..])
  }

  /** `sub` occurs in `s` starting at index `i`. */
  predicate OccursAt(s: string, sub: string, i: nat)
  {
    i + |sub| <= |s| && s[i..i + |sub|] == sub
  }

  /** `sub` occurs in `s` at some position. */
  predicate Contains(s: string, sub: string)
    decreases |s|
  {
    sub <= s || (|s| > 0 && Contains(s[1..], sub))
  }

  /** `s ILIKE '%' || pattern || '%'`, approximated as case-insensitive substring search. */
  predicate ILikeContains(s: string, pattern: string)
  {
    Contains(LowerString(s), LowerString(pattern))
  }

  /** Contains says what it should: some slice of `s` equals `sub`. */
  lemma {:induction false} ContainsAt(s: string, sub: string)
    ensures Contains(s, sub) <==> exists i: nat :: OccursAt(s, sub, i)
    decreases |s|
  {
    if |s| > 0 {
      ContainsAt(s[1..], sub);
      if Contains(s[1..], sub) {
        var i: nat :| OccursAt(s[1..], sub, i);
        assert s[1..][i..i + |sub|] == s[i + 1..i + 1 + |sub|];
        assert OccursAt(s, sub, i + 1);
      }
      if exists i: nat :: OccursAt(s, sub, i) {
        var i: nat :| OccursAt(s, sub, i);
        if i > 0 {
          assert s[1..][i - 1..i - 1 + |sub|] == s[i..i + |sub|];
          assert OccursAt(s[1..], sub, i - 1);
        }
      }
      if sub <= s {
        assert OccursAt(s, sub, 0);
      }
    } else if sub == [] {
      assert OccursAt(s, sub, 0);
    }
  }
}
