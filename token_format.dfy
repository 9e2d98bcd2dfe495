/** The textual shape of a simple auth token, `<prefix>.<index>`: Go's
    `strings.Split` on a one-character separator, `strconv.ParseUint` in
    base 10 with the platform's uint size (taken to be 64 bits), and `%d`
    formatting of an index. */
module TokenFormat {
  import opened Types

  /** Number of occurrences of d in s. */
  function Count(s: string, d: char): nat
  {
    if |s| == 0 then 0 else (if s[0] == d then 1 else 0) + Count(s[1..], d)
  }

  /** The pieces joined back together with d between neighbours. */
  function Join(parts: seq<string>, d: char): string
  {
    if |parts| == 0 then ""
    else if |parts| == 1 then parts[0]
    else parts[0] + [d] + Join(parts[1..], d)
  }

  /** `strings.Split(s, string(d))`: the maximal d-free pieces between the
      occurrences of d; one more piece than there are separators, so the
      empty string gives one empty piece. */
  function Split(s: string, d: char): (parts: seq<string>)
    ensures |parts| == Count(s, d) + 1
    ensures forall i :: 0 <= i < |parts| ==> d !in parts[i]
    ensures Join(parts, d) == s
  {
    if |s| == 0 then [""]
    else
      var rest := Split(s[1..], d);
      if s[0] == d then [""] + rest
      else [[s[0]] + rest[0]] + rest[1..]
  }

  /** A string free of the separator is a single piece. */
  lemma {:induction false} SplitNoSeparator(s: string, d: char)
    requires d !in s
    ensures Split(s, d) == [s]
  {
    if |s| > 0 {
      SplitNoSeparator(s[1..], d);
      assert [s[0]] + s[1..] == s;
    }
  }

  /** Exactly one separator between two d-free strings splits into those
      two strings. */
  lemma {:induction false} SplitOneSeparator(a: string, b: string, d: char)
    requires d !in a && d !in b
    ensures Split(a + [d] + b, d) == [a, b]
  {
    if |a| == 0 {
      assert a + [d] + b == [d] + b;
      assert ([d] + b)[1..] == b;
      SplitNoSeparator(b, d);
    } else {
      SplitOneSeparator(a[1..], b, d);
      assert (a + [d] + b)[1..] == a[1..] + [d] + b;
      assert [a[0]] + a[1..] == a;
    }
  }

  predicate IsDigit(c: char)
  {
    '0' <= c <= '9'
  }

  function DigitValue(c: char): nat
    requires IsDigit(c)
  {
    c as int - '0' as int
  }

  predicate AllDigits(s: string)
  {
    forall i :: 0 <= i < |s| ==> IsDigit(s[i])
  }

  /** The number a run of decimal digits spells, most significant first. */
  function DecimalValue(s: string): nat
    requires AllDigits(s)
  {
    if |s| == 0 then 0 else 10 * DecimalValue(s[..|s| - 1]) + DigitValue(s[|s| - 1])
  }

  /** `strconv.ParseUint(s, 10, 0)` on a platform whose uint is 64 bits:
      an error for the empty string, for any character that is not a
      decimal digit (signs and underscores included) and for a value of
      2^64 or more. */
  function ParseUint64(s: string): (r: Option<uint64>)
    ensures r.Some? <==> |s| > 0 && AllDigits(s) && DecimalValue(s) < 0x1_0000_0000_0000_0000
    ensures r.Some? ==> r.value == DecimalValue(s)
  {
    if |s| == 0 || !AllDigits(s) then None
    else
      var v := DecimalValue(s);
      if v < 0x1_0000_0000_0000_0000 then Some(v) else None
  }

  function DigitChar(d: nat): (c: char)
    requires d < 10
    ensures IsDigit(c) && DigitValue(c) == d
  {
    ('0' as int + d) as char
  }

  /** `%d` of a non-negative integer: its shortest decimal spelling. */
  function DecimalString(n: nat): (s: string)
    ensures |s| > 0 && AllDigits(s) && '.' !in s
    ensures |s| > 1 ==> s[0] != '0'
  {
    if n < 10 then [DigitChar(n)] else DecimalString(n / 10) + [DigitChar(n % 10)]
  }

  /** Formatting then parsing gives back the number. */
  lemma {:induction false} DecimalRoundTrip(n: nat)
    ensures DecimalValue(DecimalString(n)) == n
  {
    var s := DecimalString(n);
    if n >= 10 {
      DecimalRoundTrip(n / 10);
      assert s[..|s| - 1] == DecimalString(n / 10);
    }
  }

  lemma ParseFormatted(n: uint64)
    ensures ParseUint64(DecimalString(n)) == Some(n)
  {
    DecimalRoundTrip(n);
  }

  /** The index a well-formed token carries: exactly two dot-separated
      pieces, the second a base-10 unsigned 64-bit number. */
  function TokenIndex(token: string): (r: Option<uint64>)
    ensures r.Some? ==> Count(token, '.') == 1
  {
    var parts := Split(token, '.');
    if |parts| != 2 then None else ParseUint64(parts[1])
  }

  /** `isValidSimpleToken`: well-formed, and the index it carries has been
      reached (`indexReached` stands for the index wait; a cancelled wait is
      a false answer). */
  function IsValidSimpleToken(token: string, indexReached: uint64 -> bool): (ok: bool)
    ensures ok <==> TokenIndex(token).Some? && indexReached(TokenIndex(token).value)
    ensures ok ==> Count(token, '.') == 1
  {
    match TokenIndex(token)
    case None => false
    case Some(index) => indexReached(index)
  }

  /** The token `assign` hands out: `fmt.Sprintf("%s.%d", prefix, index)`. */
  function AssignedToken(prefix: string, index: uint64): string
  {
    prefix + "." + DecimalString(index)
  }

  /** A token built by `assign` from a dot-free prefix carries its index
      back, so it is valid once that index is reached. */
  lemma AssignedTokenIndex(prefix: string, index: uint64)
    requires '.' !in prefix
    ensures TokenIndex(AssignedToken(prefix, index)) == Some(index)
    ensures forall indexReached: uint64 -> bool ::
      IsValidSimpleToken(AssignedToken(prefix, index), indexReached) == indexReached(index)
  {
    SplitOneSeparator(prefix, DecimalString(index), '.');
    ParseFormatted(index);
  }

  /** A prefix holding a dot can never yield a valid token. */
  lemma DottedPrefixInvalid(prefix: string, index: uint64, indexReached: uint64 -> bool)
    requires '.' in prefix
    ensures !IsValidSimpleToken(AssignedToken(prefix, index), indexReached)
  {
    var t := AssignedToken(prefix, index);
    CountAppend(prefix, "." + DecimalString(index), '.');
    CountPositive(prefix, '.');
    CountPositive("." + DecimalString(index), '.');
    assert t == prefix + ("." + DecimalString(index));
  }

  lemma {:induction false} CountAppend(a: string, b: string, d: char)
    ensures Count(a + b, d) == Count(a, d) + Count(b, d)
  {
    if |a| > 0 {
      CountAppend(a[1..], b, d);
      assert (a + b)[1..] == a[1..] + b;
    } else {
      assert a + b == b;
    }
  }

  lemma {:induction false} CountPositive(s: string, d: char)
    requires d in s
    ensures Count(s, d) > 0
  {
    if s[0] != d {
      CountPositive(s[1..], d);
    }
  }
}
