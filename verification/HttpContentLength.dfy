/** The digit loop that reads a Content-Length value in water/net/http-parser/http_parser.c,
    with its 64-bit accumulator and conservative overflow test. */
module HttpContentLength {
  import opened Common
  import opened HttpBody

  datatype LengthError = BadDigit | Repeated | TooLarge | BadHeaderByte

  datatype Result = Length(n: nat) | Failed(error: LengthError)

  // The largest length that passes the overflow test.
  const MAX_LENGTH: nat := ULLONG_MAX - 6

  const SPACE: byte := 32

  predicate IsDigit(b: byte) { '0' as int <= b <= '9' as int }

  predicate IsHeaderByte(b: byte) { b == CR || b == LF || b == 9 || (b > 31 && b != 127) }

  // The decimal value of the digits among `bytes`, spaces passed over.
  function Decimal(bytes: seq<byte>): nat
    requires forall i :: 0 <= i < |bytes| ==> IsDigit(bytes[i]) || bytes[i] == SPACE
  {
    if bytes == [] then 0
    else
      var last := |bytes| - 1;
      var value := Decimal(bytes[..last]);
      assert IsDigit(bytes[last]) || bytes[last] == SPACE;
      if bytes[last] == SPACE then value else value * 10 + (bytes[last] - '0' as int)
  }

  predicate Numeral(bytes: seq<byte>) {
    && bytes != [] && IsDigit(bytes[0])
    && forall i :: 0 <= i < |bytes| ==> IsDigit(bytes[i]) || bytes[i] == SPACE
  }

  // Section 14.13 of RFC 2616: digits only. White space behind them does not belong to the value.
  predicate Plain(bytes: seq<byte>) {
    exists k :: 0 < k <= |bytes| && PlainTo(bytes, k)
  }

  predicate PlainTo(bytes: seq<byte>, k: nat)
    requires k <= |bytes|
  {
    (forall i :: 0 <= i < k ==> IsDigit(bytes[i])) && forall i :: k <= i < |bytes| ==> bytes[i] == SPACE
  }

  // A space stands between two digits.
  predicate SpaceInside(bytes: seq<byte>) {
    exists i, j :: 0 <= i < j < |bytes| && bytes[i] == SPACE && IsDigit(bytes[j])
  }

  function Digits(bytes: seq<byte>): (r: seq<byte>)
    requires forall i :: 0 <= i < |bytes| ==> IsDigit(bytes[i]) || bytes[i] == SPACE
    ensures forall i :: 0 <= i < |r| ==> IsDigit(r[i])
  {
    if bytes == [] then []
    else Digits(bytes[..|bytes| - 1]) + if bytes[|bytes| - 1] == SPACE then [] else [bytes[|bytes| - 1]]
  }

  // What is accepted is what the RFC allows if and only if no space stands between two digits; otherwise
  // the digits are read as if they stood together.
  lemma PlainExactly(value: seq<byte>)
    requires Numeral(value)
    ensures Plain(value) <==> !SpaceInside(value)
    ensures Decimal(value) == Decimal(Digits(value))
  {
    DigitsOnly(value);
    hide Decimal, Digits;
    if !SpaceInside(value) {
      DigitsThenSpaces(value);
    }
  }

  lemma DigitsThenSpaces(value: seq<byte>)
    requires Numeral(value) && !SpaceInside(value)
    ensures Plain(value)
  {
    var k := 1;
    while k < |value| && value[k] != SPACE
      invariant 1 <= k <= |value| && forall i :: 0 <= i < k ==> IsDigit(value[i])
    {
      assert IsDigit(value[k]);
      k := k + 1;
    }
    assert forall i :: k <= i < |value| && IsDigit(value[i]) ==> i > k && value[k] == SPACE;
    assert PlainTo(value, k);
  }

  lemma {:induction false} DigitsOnly(bytes: seq<byte>)
    requires forall i :: 0 <= i < |bytes| ==> IsDigit(bytes[i]) || bytes[i] == SPACE
    ensures Decimal(bytes) == Decimal(Digits(bytes))
  {
    if bytes != [] {
      var last := |bytes| - 1;
      DigitsOnly(bytes[..last]);
      assert IsDigit(bytes[last]) || bytes[last] == SPACE;
      if bytes[last] != SPACE {
        var d := Digits(bytes);
        assert d == Digits(bytes[..last]) + [bytes[last]];
        assert d[..|d| - 1] == Digits(bytes[..last]) && d[|d| - 1] == bytes[last];
        assert Decimal(d) == Decimal(d[..|d| - 1]) * 10 + (bytes[last] - '0' as int);
      } else {
        assert Digits(bytes[..last]) + [] == Digits(bytes[..last]);
      }
    }
  }

  // "1 2" is read as 12.
  method OneSpaceTwo() returns (r: Result)
    ensures r == Length(12) && SpaceInside(['1' as int, SPACE, '2' as int]) && !Plain(['1' as int, SPACE, '2' as int])
  {
    var value: seq<byte> := ['1' as int, SPACE, '2' as int];
    assert value[1] == SPACE && IsDigit(value[2]) && IsDigit(value[0]);
    assert Numeral(value);
    PlainExactly(value);
    assert value[..2][..1] == [value[0]] && [value[0]][..0] == [];
    assert Decimal([value[0]]) == 1 && Decimal(value[..2]) == 1 && Decimal(value) == 12;
    r := ReadContentLength(value, false);
  }

  // The decimal numeral of a number.
  function Written(n: nat): (r: seq<byte>)
    ensures r != []
    decreases n
  {
    var digit: byte := '0' as int + n % 10;
    if n < 10 then [digit] else Written(n / 10) + [digit]
  }

  lemma {:induction false} WrittenIsNumeral(n: nat)
    ensures Numeral(Written(n)) && Decimal(Written(n)) == n
    ensures forall i :: 0 <= i < |Written(n)| ==> IsDigit(Written(n)[i])
    decreases n
  {
    var w := Written(n);
    if n < 10 {
      assert w[..0] == [];
    } else {
      WrittenIsNumeral(n / 10);
      assert w[..|w| - 1] == Written(n / 10);
    }
  }

  // Every length up to the limit can be announced: its numeral is read as that number.
  method ReadsWritten(n: nat) returns (r: Result)
    ensures r == if n <= MAX_LENGTH then Length(n) else Failed(TooLarge)
  {
    WrittenIsNumeral(n);
    var w := Written(n);
    assert w[..|w|] == w;
    assert forall i :: 0 <= i < |w| ==> w[i] != CR && w[i] != LF;
    r := ReadContentLength(w, false);
  }

  // The bytes that no header may hold are the control characters, but for tab and line end, and DEL.
  lemma HeaderBytes(b: byte)
    ensures !IsHeaderByte(b) <==> b <= 8 || b == 11 || b == 12 || 14 <= b <= 31 || b == 127
  {
  }

  lemma {:induction false} DecimalGrows(bytes: seq<byte>, k: nat)
    requires k <= |bytes|
    requires forall i :: 0 <= i < |bytes| ==> IsDigit(bytes[i]) || bytes[i] == SPACE
    ensures Decimal(bytes[..k]) <= Decimal(bytes)
    decreases |bytes|
  {
    if k == |bytes| {
      assert bytes[..k] == bytes;
    } else {
      var last := |bytes| - 1;
      assert bytes[..last][..k] == bytes[..k];
      DecimalGrows(bytes[..last], k);
    }
  }

  // The test on the old value is exact for the new one: it lets a digit in if and only if the
  // result is at most MAX_LENGTH, and then neither the product nor the sum wraps.
  lemma OverflowTestIsExact(length: nat, digit: nat)
    requires digit < 10
    ensures WouldOverflow(length, 10) <==> length * 10 + digit > MAX_LENGTH
    ensures !WouldOverflow(length, 10) ==> Accumulate(length, 10, digit) == length * 10 + digit
    ensures MAX_LENGTH < ULLONG_MAX
  {
  }

  // Byte k is the first that neither belongs to the number nor makes it too large.
  predicate StopsAt(value: seq<byte>, k: nat) {
    && 0 < k < |value| && Numeral(value[..k]) && Decimal(value[..k]) <= MAX_LENGTH
    && !IsDigit(value[k]) && value[k] != SPACE
  }

  lemma OneStop(value: seq<byte>, i: nat)
    requires StopsAt(value, i)
    ensures forall k :: StopsAt(value, k) ==> k == i
  {
    NotNumeralFrom(value, i);
    assert forall j :: 0 <= j < i ==> value[..i][j] == value[j];
  }

  // The value bytes up to the line end; `repeated` says that a length header was seen before.
  // The value is accepted exactly if it is a numeral of at most MAX_LENGTH, so an accepted length
  // never wraps and is never mistaken for the "no length" sentinel.
  method ReadContentLength(value: seq<byte>, repeated: bool) returns (r: Result)
    requires value != [] && forall i :: 0 <= i < |value| ==> value[i] != CR && value[i] != LF
    ensures r.Length? <==> Numeral(value) && !repeated && Decimal(value) <= MAX_LENGTH
    ensures r.Length? ==> r.n == Decimal(value) < ULLONG_MAX
    ensures r == Failed(Repeated) <==> IsDigit(value[0]) && repeated
    ensures r == Failed(BadHeaderByte) <==> !repeated && exists k: nat :: StopsAt(value, k) && !IsHeaderByte(value[k])
    ensures r == Failed(BadDigit) <==>
      !IsDigit(value[0]) || (!repeated && exists k: nat :: StopsAt(value, k) && IsHeaderByte(value[k]))
    ensures r == Failed(TooLarge) <==>
      !repeated && exists k :: 0 < k <= |value| && Numeral(value[..k]) && Decimal(value[..k]) > MAX_LENGTH
  {
    var ch := value[0];
    if !IsDigit(ch) {
      return Failed(BadDigit);
    }
    if repeated {
      return Failed(Repeated);
    }
    var contentLength: nat := ch - '0' as int;
    assert value[..1] == [ch] && Decimal([ch][..0]) == 0;
    var i := 1;
    while i < |value|
      invariant 1 <= i <= |value|
      invariant Numeral(value[..i]) && contentLength == Decimal(value[..i]) <= MAX_LENGTH
    {
      ch := value[i];
      assert value[..i + 1][..i] == value[..i];
      if !IsHeaderByte(ch) {
        NotNumeralFrom(value, i);
        OneStop(value, i);
        return Failed(BadHeaderByte);
      }
      if ch != SPACE {
        if !IsDigit(ch) {
          NotNumeralFrom(value, i);
          OneStop(value, i);
          return Failed(BadDigit);
        }
        var t := Accumulate(contentLength, 10, ch - '0' as int);
        OverflowTestIsExact(contentLength, ch - '0' as int);
        if (ULLONG_MAX - 10) / 10 < contentLength {
          assert Numeral(value[..i + 1]) && Decimal(value[..i + 1]) > MAX_LENGTH;
          if Numeral(value) { DecimalGrows(value, i + 1); }
          TooLargeNeverStops(value, i + 1);
          return Failed(TooLarge);
        }
        contentLength := t;
      }
      i := i + 1;
    }
    assert value[..|value|] == value;
    forall k | 0 < k <= |value| ensures Decimal(value[..k]) <= MAX_LENGTH {
      DecimalGrows(value, k);
    }
    return Length(contentLength);
  }

  lemma TooLargeNeverStops(value: seq<byte>, i: nat)
    requires 0 < i <= |value| && Numeral(value[..i]) && Decimal(value[..i]) > MAX_LENGTH
    ensures forall k :: !StopsAt(value, k)
  {
    forall k | 0 < k < |value| && Numeral(value[..k]) ensures !StopsAt(value, k) {
      if k >= i {
        DecimalGrows(value[..k], i);
        assert value[..k][..i] == value[..i];
      } else {
        assert value[..i][k] == value[k];
      }
    }
  }

  // A byte that is neither digit nor space ends every numeral before it.
  lemma NotNumeralFrom(value: seq<byte>, i: nat)
    requires i < |value| && !IsDigit(value[i]) && value[i] != SPACE
    requires Numeral(value[..i]) && Decimal(value[..i]) <= MAX_LENGTH
    ensures !Numeral(value)
    ensures forall k :: 0 < k <= |value| && Numeral(value[..k]) ==> Decimal(value[..k]) <= MAX_LENGTH
  {
    forall k | i < k <= |value| ensures !Numeral(value[..k]) {
      assert value[..k][i] == value[i];
    }
    forall k | 0 < k <= i ensures Decimal(value[..k]) <= MAX_LENGTH {
      assert value[..i][..k] == value[..k];
      DecimalGrows(value[..i], k);
    }
  }
}
