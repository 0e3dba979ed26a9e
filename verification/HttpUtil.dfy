/** Number printing: pico_itoaHex and pico_itoa of libhttp/pico_http_util.c. */
module HttpUtil {
  import opened Bytes

  // HTTP_RETURN_* of libhttp/pico_http_util.h
  const RETURN_OK := 0
  const RETURN_ERROR := -1
  const RETURN_CONN_BUSY := -3

  /** The C expression that turns a digit value into its character. */
  function DigitChar(d: nat): byte
    requires d < 16
  {
    if d < 10 then d + 48 else d - 10 + 97
  }

  /** The digits of n, most significant first; nothing at all for 0. */
  function Numeral(n: nat, base: nat): seq<byte>
    requires base == 10 || base == 16
  {
    if n == 0 then [] else Numeral(n / base, base) + [DigitChar(n % base)]
  }

  /** The digits of n, least significant first: what the emission loop leaves behind. */
  function Backwards(n: nat, base: nat): seq<byte>
    requires base == 10 || base == 16
  {
    if n == 0 then [] else [DigitChar(n % base)] + Backwards(n / base, base)
  }

  lemma {:induction false} BackwardsMirrors(n: nat, base: nat)
    requires base == 10 || base == 16
    ensures |Backwards(n, base)| == |Numeral(n, base)|
    ensures forall k :: 0 <= k < |Numeral(n, base)| ==>
              Numeral(n, base)[k] == Backwards(n, base)[|Numeral(n, base)| - 1 - k]
  {
    if n != 0 {
      BackwardsMirrors(n / base, base);
    }
  }

  /** The value of a lower-case digit character, as the chunk reader takes it. */
  function DigitValue(c: byte): int {
    if 48 <= c <= 57 then c - 48 else if 97 <= c <= 102 then c - 97 + 10 else -1
  }

  ghost predicate IsNumeral(s: seq<byte>, base: nat) {
    forall k :: 0 <= k < |s| ==> 0 <= DigitValue(s[k]) < base
  }

  /** The positional value of a digit string. */
  ghost function Value(s: seq<byte>, base: nat): nat
    requires IsNumeral(s, base)
  {
    if s == [] then 0 else Value(s[..|s| - 1], base) * base + DigitValue(s[|s| - 1])
  }

  lemma {:induction false} NumeralSound(n: nat, base: nat)
    requires base == 10 || base == 16
    ensures IsNumeral(Numeral(n, base), base)
    ensures Value(Numeral(n, base), base) == n
    ensures n > 0 ==> Numeral(n, base) != [] && Numeral(n, base)[0] != 48
  {
    if n != 0 {
      NumeralSound(n / base, base);
      var s := Numeral(n, base);
      assert s[..|s| - 1] == Numeral(n / base, base);
      assert DigitValue(DigitChar(n % base)) == n % base;
      assert n / base * base + n % base == n;
    }
  }

  lemma {:induction false} PositiveValue(s: seq<byte>, base: nat)
    requires base == 10 || base == 16
    requires IsNumeral(s, base)
    requires s != [] && s[0] != 48
    ensures Value(s, base) > 0
  {
    if |s| > 1 {
      PositiveValue(s[..|s| - 1], base);
      assert Value(s[..|s| - 1], base) * base >= 1;
    } else {
      assert Value(s, base) == DigitValue(s[0]);
    }
  }

  lemma DivModUnique(q: nat, r: nat, base: nat)
    requires base == 10 || base == 16
    requires r < base
    ensures (q * base + r) / base == q && (q * base + r) % base == r
  {
    if base == 10 {
      assert (q * 10 + r) / 10 == q;
    } else {
      assert (q * 16 + r) / 16 == q;
    }
  }

  lemma NoDigits(base: nat)
    requires base == 10 || base == 16
    ensures Numeral(0, base) == []
  {
  }

  /** One digit more. */
  lemma NumeralStep(v: nat, d: nat, base: nat)
    requires base == 10 || base == 16
    requires d < base && v * base + d > 0
    ensures Numeral(v * base + d, base) == Numeral(v, base) + [DigitChar(d)]
  {
    DivModUnique(v, d, base);
  }

  /** A digit string without a leading zero is the numeral of its own value, so
      Numeral is the only such string there is for a number. */
  lemma {:induction false} NumeralUnique(s: seq<byte>, base: nat)
    requires base == 10 || base == 16
    requires IsNumeral(s, base)
    requires s != [] ==> s[0] != 48
    ensures s == Numeral(Value(s, base), base)
  {
    hide Numeral;
    NoDigits(base);
    if s != [] {
      var front, d := s[..|s| - 1], DigitValue(s[|s| - 1]);
      NumeralUnique(front, base);
      PositiveValue(s, base);
      NumeralStep(Value(front, base), d, base);
      assert s == front + [s[|s| - 1]];
    }
  }

  /** A number below base^e has at most e digits. */
  lemma {:induction false} NumeralLength(n: nat, base: nat, e: nat)
    requires base == 10 || base == 16
    requires n < Pow(base, e)
    ensures |Numeral(n, base)| <= e
  {
    if n != 0 {
      assert e > 0;
      assert n == n / base * base + n % base;
      if n / base >= Pow(base, e - 1) {
        assert base * (n / base) >= base * Pow(base, e - 1);
      }
      NumeralLength(n / base, base, e - 1);
    }
  }

  lemma QuotientAtLeast(n: nat, base: nat, p: nat)
    requires (base == 10 || base == 16) && n >= base * p
    ensures n / base >= p
  {
    if base == 10 {
      assert n / 10 >= p;
    }
  }

  /** A number from base^e on has more than e digits. */
  lemma {:induction false} NumeralTooLong(n: nat, base: nat, e: nat)
    requires base == 10 || base == 16
    requires n >= Pow(base, e)
    ensures |Numeral(n, base)| > e
  {
    if e > 0 {
      QuotientAtLeast(n, base, Pow(base, e - 1));
      NumeralTooLong(n / base, base, e - 1);
    }
  }

  /** The swap loop both printers end with. */
  method ReverseDigits(ptr: array<byte>, size: nat)
    requires size <= ptr.Length
    modifies ptr
    ensures forall k :: 0 <= k < size ==> ptr[k] == old(ptr[size - 1 - k])
    ensures forall k :: size <= k < ptr.Length ==> ptr[k] == old(ptr[k])
  {
    var index := 0;
    while index < size / 2
      invariant 0 <= index <= size / 2
      invariant forall k :: 0 <= k < index ==>
                  ptr[k] == old(ptr[size - 1 - k]) && ptr[size - 1 - k] == old(ptr[k])
      invariant forall k :: index <= k < size - index ==> ptr[k] == old(ptr[k])
      invariant forall k :: size <= k < ptr.Length ==> ptr[k] == old(ptr[k])
    {
      var c := ptr[index];
      ptr[index] := ptr[size - index - 1];
      ptr[size - index - 1] := c;
      index := index + 1;
    }
  }

  /** The emission loop: shifts and masks for base 16, division for base 10. */
  method EmitDigits(value: nat, ptr: array<byte>, base: nat) returns (size: nat)
    requires base == 10 || base == 16
    requires |Backwards(value, base)| < ptr.Length
    modifies ptr
    ensures size == |Backwards(value, base)|
    ensures ptr[..size] == Backwards(value, base)
  {
    size := 0;
    var port: nat := value;
    while port != 0
      invariant port >= 0
      invariant size + |Backwards(port, base)| == |Backwards(value, base)|
      invariant ptr[..size] + Backwards(port, base) == Backwards(value, base)
      decreases port
    {
      ghost var before := ptr[..size];
      var digit := DigitChar(port % base);
      ghost var rest := Backwards(port / base, base);
      assert Backwards(port, base) == [digit] + rest;
      assert before + ([digit] + rest) == (before + [digit]) + rest;
      ptr[size] := digit;
      size := size + 1;
      assert ptr[..size] == before + [digit];
      port := port / base;
    }
  }

  /** Both printers. */
  method PrintNumber(value: nat, ptr: array<byte>, base: nat) returns (size: nat)
    requires base == 10 || base == 16
    requires |Numeral(value, base)| < ptr.Length
    modifies ptr
    ensures size == |Numeral(value, base)|
    ensures ptr[..size] == Numeral(value, base)
    ensures ptr[size] == 0
  {
    BackwardsMirrors(value, base);
    size := EmitDigits(value, ptr, base);
    ghost var emitted := ptr[..];
    assert emitted[..size] == Backwards(value, base);
    ReverseDigits(ptr, size);
    ptr[size] := 0;
    forall k | 0 <= k < size
      ensures ptr[k] == Numeral(value, base)[k]
    {
      assert ptr[k] == emitted[size - 1 - k] == emitted[..size][size - 1 - k];
    }
  }

  /** pico_itoaHex, of a 16-bit number. */
  method ItoaHex(port: nat, ptr: array<byte>) returns (size: nat)
    requires port < 0x1_0000
    requires ptr.Length >= 5
    modifies ptr
    ensures size <= 4 && ptr[..size] == Numeral(port, 16) && ptr[size] == 0
  {
    NumeralLength(port, 16, 4);
    size := PrintNumber(port, ptr, 16);
  }

  /** pico_itoa, of a 32-bit number. */
  method Itoa(port: nat, ptr: array<byte>) returns (size: nat)
    requires port < 0x1_0000_0000
    requires |Numeral(port, 10)| < ptr.Length
    modifies ptr
    ensures size < ptr.Length && ptr[..size] == Numeral(port, 10) && ptr[size] == 0
  {
    size := PrintNumber(port, ptr, 10);
  }
}
