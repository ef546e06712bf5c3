/** The hex printer and the hex parser of the memory utilities library. */
module HexCodec {
  import opened MemoryUtilsCodes
  import opened Options

  type Byte = b: nat | b < 256

  datatype Parsed = Bytes(bytes: seq<Byte>) | Refused(code: Code)

  // ---- Printing -------------------------------------------------------------------------------

  function HexDigit(n: nat): char
    requires n < 16
  {
    "0123456789abcdef"[n]
  }

  /** One cell of the format "%02x ". */
  function Cell(b: Byte): string {
    [HexDigit(b / 16), HexDigit(b % 16), ' ']
  }

  function Printed(bytes: seq<Byte>): (s: string)
    ensures |s| == 3 * |bytes|
  {
    if bytes == [] then [] else Cell(bytes[0]) + Printed(bytes[1..])
  }

  /** The conversion of a size_t to int. */
  function ToInt(n: nat): int {
    var m := n % 0x1_0000_0000;
    if m < 0x8000_0000 then m else m - 0x1_0000_0000
  }

  /** The number of cells that the printer writes into a buffer of this size: the bound of its loop is the
      size converted to int. */
  function Cells(bufferSize: nat): nat {
    var b := ToInt(bufferSize);
    if b < 1 then 0 else (b - 1) / 3
  }

  /** For a buffer that an int can measure, this is the largest number of cells that fit together with the
      terminating NUL. */
  lemma CellsIsLargestFit(bufferSize: nat)
    requires 0 < bufferSize < 0x8000_0000
    ensures 3 * Cells(bufferSize) + 1 <= bufferSize < 3 * (Cells(bufferSize) + 1) + 1
  {}

  /** A size is taken modulo 2^32, and one whose int is negative leaves no room. */
  lemma CellsOfLargeBuffer(bufferSize: nat)
    ensures Cells(bufferSize) == if bufferSize % 0x1_0000_0000 >= 0x8000_0000 then 0
                                 else Cells(bufferSize % 0x1_0000_0000)
  {
    SmallIsItself(bufferSize % 0x1_0000_0000);
  }

  lemma SmallIsItself(n: nat)
    requires n < 0x1_0000_0000
    ensures n % 0x1_0000_0000 == n
  {}

  function Min(a: nat, b: nat): nat {
    if a < b then a else b
  }

  lemma {:induction false} PrintedAppend(a: seq<Byte>, b: seq<Byte>)
    ensures Printed(a + b) == Printed(a) + Printed(b)
  {
    if a == [] {
      assert a + b == b;
    } else {
      assert (a + b)[1..] == a[1..] + b;
      PrintedAppend(a[1..], b);
    }
  }

  /** memory_utils_hexdump_to_str: writes the longest prefix of cells the bound admits, never part of a cell,
      terminates it, and leaves the rest of the buffer alone. Null pointers are refused. */
  method HexdumpToStr(source: Option<seq<Byte>>, buffer: array?<char>) returns (code: Code, offset: nat)
    modifies buffer
    ensures code == if source.None? || buffer == null || buffer.Length == 0 then Invalid else Success
    ensures code.Success? ==>
              var bytes := source.value;
              var k := Min(|bytes|, Cells(buffer.Length));
              && offset == 3 * k
              && (k > 0 ==> offset < buffer.Length && buffer[offset] == '\0')
              && buffer[..offset] == Printed(bytes[..k])
              && forall j :: offset <= j < buffer.Length && (k > 0 ==> j > offset) ==> buffer[j] == old(buffer[j])
  {
    if source.None? || buffer == null || buffer.Length == 0 {
      return Invalid, 0;
    }
    code := Success;
    offset := PrintCells(source.value, buffer);
  }

  /** The loop of the printer. */
  method PrintCells(bytes: seq<Byte>, buffer: array<char>) returns (offset: nat)
    modifies buffer
    ensures var k := Min(|bytes|, Cells(buffer.Length));
            && offset == 3 * k && (k > 0 ==> offset < buffer.Length && buffer[offset] == '\0')
            && offset <= buffer.Length && buffer[..offset] == Printed(bytes[..k])
            && forall j :: offset <= j < buffer.Length && (k > 0 ==> j > offset) ==> buffer[j] == old(buffer[j])
  {
    offset := 0;
    var i := 0;
    while i < |bytes| && offset < ToInt(buffer.Length) - 3
      invariant i <= Min(|bytes|, Cells(buffer.Length)) && offset == 3 * i
      invariant i > 0 ==> offset < buffer.Length && buffer[offset] == '\0'
      invariant i > 0 ==> offset < ToInt(buffer.Length)
      invariant offset <= buffer.Length && buffer[..offset] == Printed(bytes[..i])
      invariant forall j :: offset <= j < buffer.Length && (i > 0 ==> j > offset) ==> buffer[j] == old(buffer[j])
    {
      assert offset + 4 <= buffer.Length;
      PrintedStep(bytes, i);
      WriteCell(buffer, offset, bytes[i]);
      offset := offset + 3;
      i := i + 1;
    }
  }

  lemma PrintedStep(bytes: seq<Byte>, i: nat)
    requires i < |bytes|
    ensures Printed(bytes[..i + 1]) == Printed(bytes[..i]) + Cell(bytes[i])
  {
    assert bytes[..i + 1] == bytes[..i] + [bytes[i]];
    PrintedAppend(bytes[..i], [bytes[i]]);
    assert Printed([bytes[i]]) == Cell(bytes[i]) + Printed([]);
  }

  /** snprintf of one cell, with its NUL. */
  method WriteCell(buffer: array<char>, offset: nat, b: Byte)
    requires offset + 4 <= buffer.Length
    modifies buffer
    ensures buffer[..offset + 3] == old(buffer[..offset]) + Cell(b) && buffer[offset + 3] == '\0'
    ensures forall j :: offset + 4 <= j < buffer.Length ==> buffer[j] == old(buffer[j])
  {
    buffer[offset], buffer[offset + 1], buffer[offset + 2] := HexDigit(b / 16), HexDigit(b % 16), ' ';
    buffer[offset + 3] := '\0';
  }

  /** The printed text has digits, lower-case letters and blanks only, one blank behind each pair of digits. */
  lemma {:induction false} PrintedText(bytes: seq<Byte>)
    ensures forall i :: 0 <= i < 3 * |bytes| ==>
              if i % 3 == 2 then Printed(bytes)[i] == ' '
              else '0' <= Printed(bytes)[i] <= '9' || 'a' <= Printed(bytes)[i] <= 'f'
  {
    if bytes != [] {
      var s, rest := Printed(bytes), Printed(bytes[1..]);
      PrintedText(bytes[1..]);
      DigitText(bytes[0] / 16);
      DigitText(bytes[0] % 16);
      forall i | 3 <= i < 3 * |bytes|
        ensures if i % 3 == 2 then s[i] == ' ' else '0' <= s[i] <= '9' || 'a' <= s[i] <= 'f'
      {
        assert s[i] == rest[i - 3];
      }
    }
  }

  lemma DigitText(n: nat)
    requires n < 16
    ensures '0' <= HexDigit(n) <= '9' || 'a' <= HexDigit(n) <= 'f'
  {}

  // ---- Parsing --------------------------------------------------------------------------------

  /** The value of a hexadecimal digit, or 16. */
  function DigitValue(c: char): (n: nat)
    ensures n <= 16
  {
    if '0' <= c <= '9' then c as nat - '0' as nat
    else if 'a' <= c <= 'f' then c as nat - 'a' as nat + 10
    else if 'A' <= c <= 'F' then c as nat - 'A' as nat + 10
    else 16
  }

  predicate IsSpace(c: char) {
    c == ' ' || 9 <= c as int <= 13
  }

  /** strtol in base 16 on a string of two characters, cast to a byte; 256 when it leaves characters over.
      Besides two digits it accepts one digit after white space or a sign. */
  function PairValue(a: char, b: char): (v: nat)
    ensures v <= 256
  {
    var high, low := DigitValue(a), DigitValue(b);
    if low == 16 then 256
    else if high < 16 then 16 * high + low
    else if IsSpace(a) || a == '+' then low
    else if a == '-' then (256 - low) % 256
    else 256
  }

  /** The pairs before the first one that is refused. */
  function GoodPairs(s: string): (bytes: seq<Byte>)
    ensures 2 * |bytes| <= |s|
  {
    if |s| < 2 || PairValue(s[0], s[1]) == 256 then []
    else [PairValue(s[0], s[1])] + GoodPairs(s[2..])
  }

  /** The result of memory_utils_str_to_hex for room of maxBytes. */
  function Parse(s: string, maxBytes: nat): Parsed {
    if |s| % 2 != 0 then Refused(Invalid)
    else if |s| / 2 > maxBytes then Refused(Overflow)
    else if |GoodPairs(s)| < |s| / 2 then Refused(Invalid)
    else Bytes(GoodPairs(s))
  }

  lemma GoodPairsTail(s: string, i: nat)
    requires 2 * i + 2 <= |s|
    ensures GoodPairs(s[2 * i..]) ==
            if PairValue(s[2 * i], s[2 * i + 1]) == 256 then []
            else [PairValue(s[2 * i], s[2 * i + 1])] + GoodPairs(s[2 * (i + 1)..])
  {
    assert s[2 * i..][2..] == s[2 * (i + 1)..];
  }

  /** One more pair in front of the pairs still to be read. */
  lemma PairsStep(s: string, i: nat, done: seq<Byte>)
    requires 2 * i + 2 <= |s| && done + GoodPairs(s[2 * i..]) == GoodPairs(s)
    ensures var v := PairValue(s[2 * i], s[2 * i + 1]);
            if v == 256 then done == GoodPairs(s)
            else (done + [v]) + GoodPairs(s[2 * (i + 1)..]) == GoodPairs(s)
  {
    GoodPairsTail(s, i);
  }

  /** Storing the byte at position i. */
  method StoreByte(bytes: array<Byte>, i: nat, v: Byte)
    requires i < bytes.Length
    modifies bytes
    ensures bytes[..i + 1] == old(bytes[..i]) + [v] && bytes[i + 1..] == old(bytes[i + 1..])
  {
    bytes[i] := v;
  }

  /** The loop of the parser: all the pairs before the first bad one have been stored. */
  method ReadPairs(s: string, bytes: array<Byte>) returns (good: bool)
    requires |s| % 2 == 0 && |s| / 2 <= bytes.Length
    modifies bytes
    ensures good <==> |GoodPairs(s)| == |s| / 2
    ensures bytes[..] == GoodPairs(s) + old(bytes[..])[|GoodPairs(s)|..]
  {
    var i := 0;
    ghost var done: seq<Byte> := [];
    assert s[2 * i..] == s && bytes[..i] == done;
    while i < |s| / 2
      invariant i <= |s| / 2 && bytes[..i] == done
      invariant done + GoodPairs(s[2 * i..]) == GoodPairs(s)
      invariant bytes[i..] == old(bytes[..])[i..]
    {
      PairsStep(s, i, done);
      var v := PairValue(s[2 * i], s[2 * i + 1]);
      if v == 256 {
        assert bytes[..] == bytes[..i] + bytes[i..];
        return false;
      }
      StoreByte(bytes, i, v);
      done := done + [v];
      i := i + 1;
    }
    assert s[2 * i..] == [] && GoodPairs(s) == done;
    assert bytes[..] == bytes[..i] + bytes[i..];
    good := true;
  }

  /** memory_utils_str_to_hex: on every outcome the pairs before the first bad one have been stored. Null pointers
      are refused. */
  method StrToHex(text: Option<string>, bytes: array?<Byte>) returns (code: Code, n: nat)
    modifies bytes
    ensures text.None? || bytes == null ==> code == Invalid
    ensures text.Some? && bytes != null ==>
              var s, parsed := text.value, Parse(text.value, bytes.Length);
              && code == (if parsed.Bytes? then Success else parsed.code)
              && (code == Success ==> n == |GoodPairs(s)|)
              && bytes[..] == if |s| % 2 == 0 && |s| / 2 <= bytes.Length
                              then GoodPairs(s) + old(bytes[..])[|GoodPairs(s)|..] else old(bytes[..])
  {
    n := 0;
    if text.None? || bytes == null {
      return Invalid, 0;
    }
    var s := text.value;
    if |s| % 2 != 0 {
      return Invalid, 0;
    }
    if |s| / 2 > bytes.Length {
      return Overflow, 0;
    }
    var good := ReadPairs(s, bytes);
    if good {
      code, n := Success, |s| / 2;
    } else {
      code := Invalid;
    }
  }

  // ---- What the parser accepts ----------------------------------------------------------------

  /** c is the hexadecimal digit for n, in lower or upper case. */
  predicate IsDigit(c: char, n: nat) {
    n < 16 && (c == "0123456789abcdef"[n] || c == "0123456789ABCDEF"[n])
  }

  lemma DigitExactly(c: char, n: nat)
    requires n < 16
    ensures DigitValue(c) == n <==> IsDigit(c, n)
  {}

  /** White space as isspace has it, and the plus sign. */
  predicate Skipped(c: char) {
    c in " \t\n\r+" || c as int == 11 || c as int == 12
  }

  /** Which pairs are read as v: the two digits of v, one digit behind white space or a plus, and one digit of the
      negative of v, modulo 256, behind a minus. */
  lemma PairExactly(a: char, b: char, v: Byte)
    ensures PairValue(a, b) == v <==>
            || (IsDigit(a, v / 16) && IsDigit(b, v % 16))
            || (Skipped(a) && IsDigit(b, v))
            || (a == '-' && IsDigit(b, (256 - v) % 256))
  {
    var m := (256 - v) % 256;
    PairByValues(a, b, v, m);
    DigitExactly(a, v / 16);
    DigitExactly(b, v % 16);
    if v < 16 { DigitExactly(b, v); }
    if m < 16 { DigitExactly(b, m); }
  }

  lemma PairByValues(a: char, b: char, v: Byte, m: nat)
    requires m == (256 - v) % 256
    ensures PairValue(a, b) == v <==>
            || (DigitValue(a) == v / 16 && DigitValue(b) == v % 16)
            || (Skipped(a) && v < 16 && DigitValue(b) == v)
            || (a == '-' && m < 16 && DigitValue(b) == m)
  {
    NoDigit(a);
    var high, low := DigitValue(a), DigitValue(b);
    if high < 16 && low < 16 { Nibbles(high, low, v); }
    if low < 16 { Negative(low, v, m); }
  }

  lemma Nibbles(high: nat, low: nat, v: Byte)
    requires high < 16 && low < 16
    ensures 16 * high + low == v <==> high == v / 16 && low == v % 16
  {}

  lemma Negative(low: nat, v: Byte, m: nat)
    requires low < 16 && m == (256 - v) % 256
    ensures (256 - low) % 256 == v <==> low == m
  {}

  lemma NoDigit(c: char)
    ensures Skipped(c) || c == '-' ==> DigitValue(c) == 16
    ensures Skipped(c) <==> IsSpace(c) || c == '+'
  {}

  /** The bytes are those of the leading pairs, and the pair behind them, if there is one, cannot be read. */
  lemma {:induction false} GoodPairsExactly(s: string)
    ensures var n := |GoodPairs(s)|;
            && (forall i :: 0 <= i < n ==> PairValue(s[2 * i], s[2 * i + 1]) == GoodPairs(s)[i])
            && (2 * n + 2 <= |s| ==> PairValue(s[2 * n], s[2 * n + 1]) == 256)
  {
    if |s| >= 2 && PairValue(s[0], s[1]) != 256 {
      var rest := s[2..];
      GoodPairsExactly(rest);
      forall i | 0 < i < |GoodPairs(s)| ensures PairValue(s[2 * i], s[2 * i + 1]) == GoodPairs(s)[i] {
        assert rest[2 * (i - 1)] == s[2 * i] && rest[2 * (i - 1) + 1] == s[2 * i + 1];
      }
    }
  }

  /** A text is accepted if and only if it has pairs only, there is room for all of them, and each can be read. */
  lemma AcceptedExactly(s: string, maxBytes: nat)
    ensures Parse(s, maxBytes).Bytes? <==>
            && |s| % 2 == 0 && |s| <= 2 * maxBytes
            && forall i :: 0 <= i < |s| / 2 ==> PairValue(s[2 * i], s[2 * i + 1]) < 256
    ensures Parse(s, maxBytes) == Refused(Overflow) <==> |s| % 2 == 0 && |s| > 2 * maxBytes
    ensures Parse(s, maxBytes).Refused? ==> Parse(s, maxBytes).code in {Invalid, Overflow}
  {
    GoodPairsExactly(s);
  }

  /** The text of bytes in digits of either case gives these bytes. */
  lemma {:induction false} ReadsEitherCase(s: string, bytes: seq<Byte>, maxBytes: nat)
    requires |s| == 2 * |bytes| && |bytes| <= maxBytes
    requires forall i :: 0 <= i < |bytes| ==> IsDigit(s[2 * i], bytes[i] / 16) && IsDigit(s[2 * i + 1], bytes[i] % 16)
    ensures Parse(s, maxBytes) == Bytes(bytes)
  {
    forall i | 0 <= i < |bytes| ensures PairValue(s[2 * i], s[2 * i + 1]) == bytes[i] {
      PairExactly(s[2 * i], s[2 * i + 1], bytes[i]);
    }
    GoodPairsExactly(s);
    assert GoodPairs(s) == bytes;
  }

  // ---- Round trips ----------------------------------------------------------------------------

  function WithoutSpaces(s: string): string {
    if s == [] then [] else if s[0] == ' ' then WithoutSpaces(s[1..]) else [s[0]] + WithoutSpaces(s[1..])
  }

  lemma DigitsAreRead(n: nat)
    requires n < 16
    ensures DigitValue(HexDigit(n)) == n && HexDigit(n) != ' '
  {}

  lemma CellIsRead(b: Byte)
    ensures PairValue(HexDigit(b / 16), HexDigit(b % 16)) == b
  {
    DigitsAreRead(b / 16);
    DigitsAreRead(b % 16);
  }

  lemma WithoutSpacesCons(c: char, s: string)
    ensures WithoutSpaces([c] + s) == if c == ' ' then WithoutSpaces(s) else [c] + WithoutSpaces(s)
  {
    assert ([c] + s)[1..] == s;
  }

  lemma CellWithoutSpaces(b: Byte, rest: string)
    ensures WithoutSpaces(Cell(b) + rest) == [HexDigit(b / 16), HexDigit(b % 16)] + WithoutSpaces(rest)
  {
    DigitsAreRead(b / 16);
    DigitsAreRead(b % 16);
    TwoWithoutSpaces(HexDigit(b / 16), HexDigit(b % 16), rest);
  }

  lemma TwoWithoutSpaces(high: char, low: char, rest: string)
    requires high != ' ' && low != ' '
    ensures WithoutSpaces([high, low, ' '] + rest) == [high, low] + WithoutSpaces(rest)
  {
    var blank := [' '] + rest;
    WithoutSpacesCons(' ', rest);
    WithoutSpacesCons(low, blank);
    WithoutSpacesCons(high, [low] + blank);
    assert [high, low, ' '] + rest == [high] + ([low] + blank);
  }

  lemma {:induction false} PrintedWithoutSpaces(bytes: seq<Byte>)
    ensures |WithoutSpaces(Printed(bytes))| == 2 * |bytes|
    ensures GoodPairs(WithoutSpaces(Printed(bytes))) == bytes
  {
    if bytes != [] {
      var b, rest := bytes[0], Printed(bytes[1..]);
      PrintedWithoutSpaces(bytes[1..]);
      CellWithoutSpaces(b, rest);
      CellIsRead(b);
      var s := WithoutSpaces(Printed(bytes));
      assert s[2..] == WithoutSpaces(rest);
    }
  }

  /** Print, drop the separators, parse: every byte sequence comes back. */
  lemma RoundTrip(bytes: seq<Byte>, maxBytes: nat)
    requires |bytes| <= maxBytes
    ensures Parse(WithoutSpaces(Printed(bytes)), maxBytes) == Bytes(bytes)
  {
    PrintedWithoutSpaces(bytes);
    ParseGood(WithoutSpaces(Printed(bytes)), bytes, maxBytes);
  }

  lemma ParseGood(s: string, bytes: seq<Byte>, maxBytes: nat)
    requires |s| == 2 * |bytes| && GoodPairs(s) == bytes && |bytes| <= maxBytes
    ensures Parse(s, maxBytes) == Bytes(bytes)
  {}

  /** The parser does not read the printer's own output: with the separators in, it accepts the text of no
      byte sequence but the empty one. */
  lemma RawOutputExactly(bytes: seq<Byte>, maxBytes: nat)
    ensures Parse(Printed(bytes), maxBytes).Bytes? <==> bytes == []
  {
    var s := Printed(bytes);
    if |bytes| >= 2 {
      var rest := Printed(bytes[1..]);
      assert s == Cell(bytes[0]) + rest && rest == Cell(bytes[1]) + Printed(bytes[1..][1..]);
      assert s[5] == ' ' && DigitValue(s[5]) == 16;
      GoodPairsTail(s, 2);
      assert s[2 * 1..][2..] == s[4..] && s[2..][2..] == s[4..];
      assert |GoodPairs(s[4..])| == 0;
      assert |GoodPairs(s[2..])| <= 1;
      assert |GoodPairs(s)| <= 2;
    }
  }
}
