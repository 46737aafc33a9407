/**
  Text as the source sees it: a string here is the sequence of its UTF-8 code
  units, one char per byte, so lengths are byte lengths and an index may fall
  inside a character.
 */
module Utf8 {

  /** Bytes 0x80 to 0xBF continue a character begun earlier. */
  predicate IsContinuation(c: char) {
    0x80 <= c as int < 0xC0
  }

  predicate IsBoundary(s: string, i: nat) {
    i == 0 || i == |s| || (i < |s| && !IsContinuation(s[i]))
  }

  /** What every &str guarantees of its bytes here: a continuation byte never starts the text nor follows ASCII. */
  predicate IsText(s: string) {
    forall i :: 0 <= i < |s| && IsContinuation(s[i]) ==> i > 0 && s[i - 1] as int >= 0x80
  }

  /** str::floor_char_boundary: the last boundary at or before i. */
  function FloorBoundary(s: string, i: nat): (r: nat)
    ensures r <= |s| && r <= i && IsBoundary(s, r)
  {
    if i >= |s| then |s|
    else if IsBoundary(s, i) then i
    else FloorBoundary(s, i - 1)
  }

  /** The first boundary at or after i. */
  function CeilBoundary(s: string, i: nat): (r: nat)
    requires i <= |s|
    ensures i <= r <= |s| && IsBoundary(s, r)
    decreases |s| - i
  {
    if IsBoundary(s, i) then i else CeilBoundary(s, i + 1)
  }

  /** Nothing between the index asked for and the boundary found is a boundary. */
  lemma {:induction false} NearestBoundaries(s: string, i: nat, b: nat)
    requires i <= |s| && b <= |s| && IsBoundary(s, b)
    ensures b <= i ==> b <= FloorBoundary(s, i)
    ensures i <= b ==> CeilBoundary(s, i) <= b
  {
    if b < i {
      FloorFindsLast(s, i, b);
    } else if i < b {
      CeilFindsFirst(s, i, b);
    }
  }

  lemma {:induction false} FloorFindsLast(s: string, i: nat, b: nat)
    requires b <= i <= |s| && IsBoundary(s, b)
    ensures b <= FloorBoundary(s, i)
  {
    if i > b && !IsBoundary(s, i) {
      FloorFindsLast(s, i - 1, b);
    }
  }

  lemma {:induction false} CeilFindsFirst(s: string, i: nat, b: nat)
    requires i <= b <= |s| && IsBoundary(s, b)
    ensures CeilBoundary(s, i) <= b
    decreases b - i
  {
    if i < b && !IsBoundary(s, i) {
      CeilFindsFirst(s, i + 1, b);
    }
  }

  function Digit(d: nat): char
    requires d < 10
  {
    ('0' as int + d) as char
  }

  /** A count as it is printed. */
  function Decimal(n: nat): (r: string)
    ensures r != ""
  {
    if n < 10 then [Digit(n)] else Decimal(n / 10) + [Digit(n % 10)]
  }

  function Pow10(d: nat): nat {
    if d == 0 then 1 else 10 * Pow10(d - 1)
  }

  lemma {:induction false} DecimalLength(n: nat, d: nat)
    requires 0 < d && n < Pow10(d)
    ensures |Decimal(n)| <= d
    decreases d
  {
    if n >= 10 {
      DecimalLength(n / 10, d - 1);
    }
  }

  lemma {:induction false} DecimalLengthExactly(n: nat, d: nat)
    requires 0 < d && Pow10(d - 1) <= n < Pow10(d)
    ensures |Decimal(n)| == d
    decreases d
  {
    if n >= 10 {
      DecimalLengthExactly(n / 10, d - 1);
    }
  }

  /** The number a string of digits names. */
  function ValueOf(digits: string): nat {
    if digits == "" || digits[|digits| - 1] < '0' then 0
    else 10 * ValueOf(digits[..|digits| - 1]) + (digits[|digits| - 1] as int - '0' as int)
  }

  /** Reading a printed count gives the count back; it is digits only and starts with no idle zero. */
  lemma {:induction false} DecimalReadsBack(n: nat)
    ensures ValueOf(Decimal(n)) == n
    ensures forall i :: 0 <= i < |Decimal(n)| ==> '0' <= Decimal(n)[i] <= '9'
    ensures n > 0 ==> Decimal(n)[0] != '0'
  {
    if n >= 10 {
      DecimalReadsBack(n / 10);
      assert Decimal(n)[..|Decimal(n)| - 1] == Decimal(n / 10);
    }
  }
}
