/** Rust's text <-> `u32` conversions that the reader loop relies on:
    `u32::from_str_radix` parses the Mifare payload (radix 16) and
    `u32::to_string` renders the identifier put on the clipboard (radix 10).
    Both are modelled as functions on strings and related to a positional
    value function by lemmas. */
module RadixText {

  /** Values of Rust's `u32`. */
  const U32Limit: int := 0x1_0000_0000
  type u32 = x: int | 0 <= x < 0x1_0000_0000

  datatype Result<T, E> = Ok(value: T) | Err(error: E)

  /** The kinds of `ParseIntError` that parsing an unsigned integer can report. */
  datatype IntErrorKind = Empty | InvalidDigit | PosOverflow

  /** `char::to_digit` before the radix check: '0'..'9' are 0..9, letters of
      either case are 10..35, everything else is 36 (a digit in no radix). */
  function CharValue(c: char): (v: nat)
    ensures v <= 36
    ensures v < 10 <==> '0' <= c <= '9'
    ensures v < 36 <==> '0' <= c <= '9' || 'a' <= c <= 'z' || 'A' <= c <= 'Z'
  {
    if '0' <= c <= '9' then c as int - '0' as int
    else if 'a' <= c <= 'z' then c as int - 'a' as int + 10
    else if 'A' <= c <= 'Z' then c as int - 'A' as int + 10
    else 36
  }

  predicate IsDigit(c: char, radix: nat)
  {
    CharValue(c) < radix
  }

  predicate AllDigits(ds: string, radix: nat)
  {
    forall i :: 0 <= i < |ds| ==> IsDigit(ds[i], radix)
  }

  /** The positional value of a digit string, most significant digit first. */
  function Value(ds: string, radix: nat): nat
  {
    if ds == [] then 0 else Value(ds[..|ds| - 1], radix) * radix + CharValue(ds[|ds| - 1])
  }

  /** The digits that `from_str_radix` scans for an unsigned type: a single
      leading '+' is skipped; a leading '-' is kept, and is then no digit. */
  function Digits(src: string): string
  {
    if |src| > 0 && src[0] == '+' then src[1..] else src
  }

  /** `src` is an optional '+' followed by one or more digits of `radix`. */
  predicate IsNumeral(src: string, radix: nat)
  {
    |Digits(src)| > 0 && AllDigits(Digits(src), radix)
  }

  /** The scanning loop of `from_str_radix`: left to right, each character is
      first checked to be a digit, then `acc * radix + digit` is checked to fit. */
  function Accumulate(ds: string, radix: nat, acc: u32): (r: Result<u32, IntErrorKind>)
    requires 2 <= radix <= 36
    ensures r.Ok? ==> acc <= r.value
    ensures r.Err? ==> r.error != Empty
    decreases |ds|
  {
    if ds == [] then Ok(acc)
    else if !IsDigit(ds[0], radix) then Err(InvalidDigit)
    else
      var next := acc * radix + CharValue(ds[0]);
      if next >= U32Limit then Err(PosOverflow)
      else
        MulGrows(acc, radix);
        Accumulate(ds[1..], radix, next)
  }

  /** `u32::from_str_radix(src, radix)`; Rust panics for a radix outside 2..=36,
      hence the precondition. The '+' or '-' alone is an invalid digit. */
  function FromStrRadix(src: string, radix: nat): (r: Result<u32, IntErrorKind>)
    requires 2 <= radix <= 36
    ensures r == Err(Empty) <==> src == []
  {
    if src == [] then Err(Empty)
    else if (src[0] == '+' || src[0] == '-') && |src| == 1 then Err(InvalidDigit)
    else if src[0] == '+' then Accumulate(src[1..], radix, 0)
    else Accumulate(src, radix, 0)
  }

  /** The decimal digit character for 0 <= d < 10. */
  function DecimalChar(d: nat): char
    requires d < 10
  {
    ('0' as int + d) as char
  }

  /** `u32::to_string`: the decimal rendering, without sign or leading zeros. */
  function ToDecimal(n: nat): (s: string)
    ensures |s| >= 1 && AllDigits(s, 10)
    ensures s[0] == '0' ==> s == "0"
    ensures Value(s, 10) == n
    decreases n
  {
    if n < 10 then [DecimalChar(n)]
    else
      var prefix := ToDecimal(n / 10);
      var s := prefix + [DecimalChar(n % 10)];
      assert s[..|s| - 1] == prefix;
      s
  }

  lemma MulGrows(a: nat, b: nat)
    requires b >= 1
    ensures a * b >= a
  {
  }

  /** A digit string is worth at least as much as any of its prefixes. */
  lemma {:induction false} ValueGrows(ds: string, radix: nat, k: nat)
    requires 1 <= radix && k <= |ds|
    ensures Value(ds[..k], radix) <= Value(ds, radix)
    decreases |ds|
  {
    if k < |ds| {
      var init := ds[..|ds| - 1];
      assert init[..k] == ds[..k];
      ValueGrows(init, radix, k);
      MulGrows(Value(init, radix), radix);
    } else {
      assert ds[..k] == ds;
    }
  }

  /** After the scan has consumed the first k digits it holds their value, and it
      ends with the value of all of them when that fits in a `u32` and with an
      overflow otherwise. */
  lemma {:induction false} AccumulateDigits(ds: string, radix: nat, k: nat)
    requires 2 <= radix <= 36
    requires AllDigits(ds, radix) && k <= |ds| && Value(ds[..k], radix) < U32Limit
    ensures Accumulate(ds[k..], radix, Value(ds[..k], radix))
         == if Value(ds, radix) < U32Limit then Ok(Value(ds, radix)) else Err(PosOverflow)
    decreases |ds| - k
  {
    if k == |ds| {
      assert ds[..k] == ds;
    } else {
      var next := Value(ds[..k], radix) * radix + CharValue(ds[k]);
      assert ds[..k + 1][..k] == ds[..k];
      assert next == Value(ds[..k + 1], radix);
      assert IsDigit(ds[k..][0], radix);
      if next < U32Limit {
        assert ds[k..][1..] == ds[k + 1..];
        AccumulateDigits(ds, radix, k + 1);
      } else {
        ValueGrows(ds, radix, k + 1);
      }
    }
  }

  /** A string with a character that is no digit never scans to a value. */
  lemma {:induction false} AccumulateRejects(ds: string, radix: nat, acc: u32, k: nat)
    requires 2 <= radix <= 36
    requires k < |ds| && !IsDigit(ds[k], radix)
    ensures Accumulate(ds, radix, acc).Err?
    decreases |ds|
  {
    if k > 0 && IsDigit(ds[0], radix) && acc * radix + CharValue(ds[0]) < U32Limit {
      AccumulateRejects(ds[1..], radix, acc * radix + CharValue(ds[0]), k - 1);
    }
  }

  /** What `from_str_radix` returns, in terms of the numeral's value:
      a value exactly for an in-range numeral, `PosOverflow` for a numeral
      that does not fit, and an error (never `Empty`) for anything else
      that is not empty. */
  lemma FromStrRadixSpec(src: string, radix: nat)
    requires 2 <= radix <= 36
    ensures var r := FromStrRadix(src, radix);
            && (r.Ok? <==> IsNumeral(src, radix) && Value(Digits(src), radix) < U32Limit)
            && (r.Ok? ==> r.value == Value(Digits(src), radix))
            && (IsNumeral(src, radix) && Value(Digits(src), radix) >= U32Limit ==> r == Err(PosOverflow))
            && (src != [] && !IsNumeral(src, radix) ==> r.Err? && r.error != Empty)
  {
    var ds := Digits(src);
    if src == [] {
    } else if (src[0] == '+' || src[0] == '-') && |src| == 1 {
      assert !IsDigit(src[0], radix);
    } else {
      assert FromStrRadix(src, radix) == Accumulate(ds, radix, 0);
      if AllDigits(ds, radix) {
        assert ds[..0] == [] && ds[0..] == ds;
        AccumulateDigits(ds, radix, 0);
      } else {
        var k :| 0 <= k < |ds| && !IsDigit(ds[k], radix);
        AccumulateRejects(ds, radix, 0, k);
      }
    }
  }

  /** Parsing the decimal rendering of a `u32` back gives the same `u32`. */
  lemma DecimalRoundTrip(n: u32)
    ensures FromStrRadix(ToDecimal(n), 10) == Ok(n)
  {
    var s := ToDecimal(n);
    assert Digits(s) == s by { assert IsDigit(s[0], 10); }
    FromStrRadixSpec(s, 10);
  }

  /** The worked example: hexadecimal "1A2B" is 6699. */
  lemma HexExample()
    ensures FromStrRadix("1A2B", 16) == Ok(6699)
  {
    var s := "1A2B";
    assert AllDigits(s, 16);
    assert Value("1", 16) == 1 by { assert "1"[..0] == []; }
    assert Value("1A", 16) == 26 by { assert "1A"[..1] == "1"; }
    assert Value("1A2", 16) == 418 by { assert "1A2"[..2] == "1A"; }
    assert Value(s, 16) == 6699 by { assert s[..3] == "1A2"; }
    FromStrRadixSpec(s, 16);
  }

  /** ... and 6699 is rendered "6699". */
  lemma DecimalExample()
    ensures ToDecimal(6699) == "6699"
  {
  }
}
