/** The two JavaScript built-ins the new-recipe form relies on for its
    checks: `String.prototype.trim` and the string-to-number conversion
    `Number(s)` (ECMA-262, sections 22.1.3.32 and 7.1.4.1.1). */
module JsText {

  import opened RecipeTypes

  /** The WhiteSpace and LineTerminator code points of ECMA-262 (sections
      12.2 and 12.3): what `trim` and `Number` strip from both ends. */
  predicate IsJsSpace(c: char) {
    || c == '\t' || c == '\U{000B}' || c == '\U{000C}' || c == ' '
    || c == '\U{00A0}' || c == '\U{FEFF}' || c == '\U{1680}'
    || ('\U{2000}' <= c <= '\U{200A}')
    || c == '\U{202F}' || c == '\U{205F}' || c == '\U{3000}'
    || c == '\n' || c == '\r' || c == '\U{2028}' || c == '\U{2029}'
  }

  /** Every character of `s` is white space (true of the empty string). */
  predicate IsBlank(s: string) {
    forall i :: 0 <= i < |s| ==> IsJsSpace(s[i])
  }

  /** How many white-space characters `s` starts with. */
  function LeadingSpaces(s: string): (k: nat)
    ensures k <= |s|
    ensures forall i :: 0 <= i < k ==> IsJsSpace(s[i])
    ensures k < |s| ==> !IsJsSpace(s[k])
  {
    if s != [] && IsJsSpace(s[0]) then 1 + LeadingSpaces(s[1..]) else 0
  }

  /** How many white-space characters `s` ends with. */
  function TrailingSpaces(s: string): (k: nat)
    ensures k <= |s|
    ensures forall i :: |s| - k <= i < |s| ==> IsJsSpace(s[i])
    ensures k < |s| ==> !IsJsSpace(s[|s| - k - 1])
  {
    if s != [] && IsJsSpace(s[|s| - 1]) then 1 + TrailingSpaces(s[..|s| - 1]) else 0
  }

  /** `s` without its leading white space. */
  function TrimStart(s: string): (r: string)
    ensures |r| <= |s| && r == s[|s| - |r|..]
    ensures IsBlank(s[..|s| - |r|])
    ensures r == [] || !IsJsSpace(r[0])
  {
    s[LeadingSpaces(s)..]
  }

  /** `s` without its trailing white space. */
  function TrimEnd(s: string): (r: string)
    ensures |r| <= |s| && r == s[..|r|]
    ensures IsBlank(s[|r|..])
    ensures r == [] || !IsJsSpace(r[|r| - 1])
  {
    s[..|s| - TrailingSpaces(s)]
  }

  /** `s.trim()`: empty exactly when `s` is blank, and otherwise starting
      and ending with a character that is not white space. */
  function Trim(s: string): (r: string)
    ensures r == [] <==> IsBlank(s)
    ensures r != [] ==> !IsJsSpace(r[0]) && !IsJsSpace(r[|r| - 1])
    ensures |r| <= |s|
  {
    var t := TrimStart(s);
    var r := TrimEnd(t);
    assert r == [] ==> IsBlank(t) by {
      if r == [] { assert t[|r|..] == t; }
    }
    assert IsBlank(s) ==> t == [] by {
      if t != [] { assert t[0] == s[|s| - |t|]; }
    }
    assert IsBlank(t) ==> IsBlank(s) by {
      if IsBlank(t) {
        assert t == [];
        assert s[..|s| - |t|] == s;
      }
    }
    r
  }

  /** Trimming twice is trimming once. */
  lemma {:induction false} TrimIdempotent(s: string)
    ensures Trim(Trim(s)) == Trim(s)
  {
    TrimKeeps(Trim(s));
  }

  /** A string with no white space at either end is its own trim. */
  lemma TrimKeeps(r: string)
    requires r != [] ==> !IsJsSpace(r[0]) && !IsJsSpace(r[|r| - 1])
    ensures Trim(r) == r
  {
    if r != [] {
      TrimStartKeeps(r);
      TrimEndKeeps(r);
    }
  }

  lemma TrimStartKeeps(r: string)
    requires r != [] && !IsJsSpace(r[0])
    ensures TrimStart(r) == r
  {
  }

  lemma TrimEndKeeps(r: string)
    requires r != [] && !IsJsSpace(r[|r| - 1])
    ensures TrimEnd(r) == r
  {
  }

  predicate IsDigit(c: char) {
    '0' <= c <= '9'
  }

  predicate AllDigits(s: string) {
    forall i :: 0 <= i < |s| ==> IsDigit(s[i])
  }

  /** The value of a string of decimal digits, most significant first. */
  function DigitsValue(s: string): (n: nat)
    requires AllDigits(s)
  {
    if s == [] then 0 else 10 * DigitsValue(s[..|s| - 1]) + (s[|s| - 1] as int - '0' as int)
  }

  /** A non-empty run of decimal digits, or a sign followed by one. */
  predicate IsIntegerLiteral(t: string) {
    || (t != [] && AllDigits(t))
    || (|t| > 1 && (t[0] == '-' || t[0] == '+') && AllDigits(t[1..]))
  }

  /** `Number(s)` for the strings a user types into a numeric field, with
      `None` standing for NaN: surrounding white space is ignored, an
      empty or blank string is 0, and an optionally signed run of decimal
      digits is its value. Every other string is NaN. */
  function ParseNumber(s: string): (r: Option<int>)
    ensures IsBlank(s) ==> r == Some(0)
    ensures r.Some? <==> IsBlank(s) || IsIntegerLiteral(Trim(s))
  {
    var t := Trim(s);
    if t == [] then Some(0)
    else if (t[0] == '-' || t[0] == '+') && |t| > 1 && AllDigits(t[1..]) then
      var v: int := DigitsValue(t[1..]);
      Some(if t[0] == '-' then -v else v)
    else if AllDigits(t) then
      Some(DigitsValue(t))
    else None
  }

  /** The canonical decimal form of a natural number. */
  function ShowNat(n: nat): (s: string)
    ensures s != [] && AllDigits(s)
  {
    var d := ['0' + (n % 10) as char];
    if n < 10 then d else ShowNat(n / 10) + d
  }

  lemma {:induction false} ShowNatValue(n: nat)
    ensures DigitsValue(ShowNat(n)) == n
  {
    var s := ShowNat(n);
    assert s[..|s| - 1] == (if n < 10 then [] else ShowNat(n / 10));
    if n >= 10 { ShowNatValue(n / 10); }
  }

  /** A natural number typed in its usual decimal form reads back as
      itself, also when the user leaves spaces around it. */
  lemma NumberOfDecimal(n: nat, pad: string, pad': string)
    requires IsBlank(pad) && IsBlank(pad')
    ensures ParseNumber(pad + ShowNat(n) + pad') == Some(n)
  {
    var d := ShowNat(n);
    TrimPadded(pad, d, pad');
    NumberOfDigits(pad + d + pad');
    ShowNatValue(n);
  }

  /** Trimming removes exactly the blank padding around a string whose
      ends are not white space. */
  lemma TrimPadded(pad: string, d: string, pad': string)
    requires IsBlank(pad) && IsBlank(pad') && d != []
    requires !IsJsSpace(d[0]) && !IsJsSpace(d[|d| - 1])
    ensures Trim(pad + d + pad') == d
  {
    TrimStartPadded(pad, d + pad');
    assert pad + (d + pad') == pad + d + pad';
    TrimEndPadded(d, pad');
  }

  /** A string that trims to a run of digits reads as their value. */
  lemma NumberOfDigits(s: string)
    requires Trim(s) != [] && AllDigits(Trim(s))
    ensures ParseNumber(s) == Some(DigitsValue(Trim(s)))
  {
    var t := Trim(s);
    assert IsDigit(t[0]);
  }

  /** A `+` in front of the digits is ignored: the field reads as its
      digits alone. */
  lemma PlusSignIgnored(s: string)
    requires |Trim(s)| > 1 && Trim(s)[0] == '+' && AllDigits(Trim(s)[1..])
    ensures ParseNumber(s) == ParseNumber(Trim(s)[1..])
    ensures ParseNumber(s) == Some(DigitsValue(Trim(s)[1..]))
  {
    SignedValue(s);
    DigitsReadAsValue(Trim(s)[1..]);
  }

  /** A `-` in front of the digits negates them. */
  lemma MinusSignNegates(s: string)
    requires |Trim(s)| > 1 && Trim(s)[0] == '-' && AllDigits(Trim(s)[1..])
    ensures ParseNumber(Trim(s)[1..]).Some?
    ensures ParseNumber(s).Some? && ParseNumber(s).value == -ParseNumber(Trim(s)[1..]).value
  {
    SignedValue(s);
    DigitsReadAsValue(Trim(s)[1..]);
  }

  lemma SignedValue(s: string)
    requires |Trim(s)| > 1 && (Trim(s)[0] == '-' || Trim(s)[0] == '+') && AllDigits(Trim(s)[1..])
    ensures ParseNumber(s) == Some(if Trim(s)[0] == '-' then -(DigitsValue(Trim(s)[1..]) as int) else DigitsValue(Trim(s)[1..]))
  {
  }

  lemma DigitsReadAsValue(d: string)
    requires d != [] && AllDigits(d)
    ensures ParseNumber(d) == Some(DigitsValue(d))
  {
    assert IsDigit(d[0]) && IsDigit(d[|d| - 1]);
    TrimKeeps(d);
    NumberOfDigits(d);
  }

  lemma TrimStartPadded(pad: string, t: string)
    requires IsBlank(pad) && t != [] && !IsJsSpace(t[0])
    ensures TrimStart(pad + t) == t
  {
    LeadingSpacesPadded(pad, t);
    assert (pad + t)[|pad|..] == t;
  }

  lemma {:induction false} LeadingSpacesPadded(pad: string, t: string)
    requires IsBlank(pad) && t != [] && !IsJsSpace(t[0])
    ensures LeadingSpaces(pad + t) == |pad|
    decreases |pad|
  {
    if pad != [] {
      assert (pad + t)[1..] == pad[1..] + t;
      LeadingSpacesPadded(pad[1..], t);
    } else {
      assert pad + t == t;
    }
  }

  lemma TrimEndPadded(t: string, pad: string)
    requires IsBlank(pad) && t != [] && !IsJsSpace(t[|t| - 1])
    ensures TrimEnd(t + pad) == t
  {
    TrailingSpacesPadded(t, pad);
    assert (t + pad)[..|t|] == t;
  }

  lemma {:induction false} TrailingSpacesPadded(t: string, pad: string)
    requires IsBlank(pad) && t != [] && !IsJsSpace(t[|t| - 1])
    ensures TrailingSpaces(t + pad) == |pad|
    decreases |pad|
  {
    if pad != [] {
      assert (t + pad)[..|t + pad| - 1] == t + pad[..|pad| - 1];
      TrailingSpacesPadded(t, pad[..|pad| - 1]);
    } else {
      assert t + pad == t;
    }
  }
}
