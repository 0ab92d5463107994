/**
 * The cursor record: the number of words already used, kept between runs in
 * `skipline.dat` as an eight-byte record. `U64ToArray` renders the counter as
 * ASCII decimal digits, most significant first, followed by NUL bytes;
 * `ParseLinesToSkip` reads it back by folding every digit byte and skipping
 * every other byte.
 */
module CursorRecord {
  import opened Base

  /** Size in bytes of the record in `skipline.dat`. */
  const RECORD_SIZE: nat := 8

  function DigitByte(d: nat): (b: Byte)
    requires d < 10
    ensures IsDigit(b) && b - ZERO_CHAR == d
  {
    ZERO_CHAR + d
  }

  /** Number of decimal digits of `n`; zero is written with one digit. */
  function NumDigits(n: nat): (k: nat)
    ensures k >= 1
  {
    if n < 10 then 1 else 1 + NumDigits(n / 10)
  }

  /** The `w` lowest decimal digits of `n`, most significant first (leading '0's when `n` is shorter). */
  function LowDigits(n: nat, w: nat): (s: seq<Byte>)
    ensures |s| == w
  {
    if w == 0 then [] else [DigitByte((n / Pow10(w - 1)) % 10)] + LowDigits(n, w - 1)
  }

  /** The usual decimal spelling of `n`. */
  function Decimal(n: nat): seq<Byte> {
    LowDigits(n, NumDigits(n))
  }

  /** How many digits the first loop of `u64_to_array` writes before it stops. */
  function Width(size: nat, n: nat): nat {
    Min(NumDigits(n), size)
  }

  /** The record `u64_to_array::<size>(n)` returns. */
  function Render(size: nat, n: nat): (r: seq<Byte>)
    ensures |r| == size
  {
    LowDigits(n, Width(size, n)) + Zeros(size - Width(size, n))
  }

  /** Number of digit bytes in `s`. */
  function DigitCount(s: seq<Byte>): (k: nat)
    ensures k <= |s|
  {
    if s == [] then 0 else DigitCount(s[..|s| - 1]) + if IsDigit(s[|s| - 1]) then 1 else 0
  }

  /** The left-to-right fold `result * 10 + digit` over the digit bytes of `s`. */
  function ParseValue(s: seq<Byte>): nat {
    if s == [] then 0
    else
      var b := s[|s| - 1];
      if IsDigit(b) then ParseValue(s[..|s| - 1]) * 10 + (b - ZERO_CHAR) else ParseValue(s[..|s| - 1])
  }

  /** Non-NUL bytes of `s`, in order: what the compaction pass of `u64_to_array` keeps. */
  function NonNul(s: seq<Byte>): seq<Byte> {
    if s == [] then [] else NonNul(s[..|s| - 1]) + if s[|s| - 1] != NUL then [s[|s| - 1]] else []
  }

  // ---------------------------------------------------------------------------
  // The two operations of the source

  /** `u64_to_array::<size>(num)`: a right-to-left digit loop into a zeroed
      buffer, then a pass that moves the non-zero bytes to the front of a
      second buffer. */
  method U64ToArray(size: nat, num: U64) returns (res: seq<Byte>)
    ensures res == Render(size, num)
  {
    var buf := new Byte[size](_ => NUL);
    var written := WriteDigits(buf, num);
    assert NonNul(buf[..]) == LowDigits(num, written) by {
      LowDigitsAreDigits(num, written);
      NonNulPadded(size - written, LowDigits(num, written));
    }
    res := Compact(buf);
  }

  /** The first loop of `u64_to_array`: the digits of `num` from the last
      byte of the zeroed `buf` backwards, stopping after the first digit that
      leaves the number at zero or when the buffer is full. */
  method WriteDigits(buf: array<Byte>, num: U64) returns (written: nat)
    requires buf[..] == Zeros(buf.Length)
    modifies buf
    ensures written == Width(buf.Length, num)
    ensures buf[..] == Zeros(buf.Length - written) + LowDigits(num, written)
  {
    var size := buf.Length;
    var m: nat := num;
    written := 0;
    while written < size
      invariant written <= Width(size, num)
      invariant m == Shifted(num, written)
      invariant 0 < written ==> 0 < m
      invariant buf[..] == Zeros(size - written) + LowDigits(num, written)
    {
      assert written < Width(size, num) by {
        if 0 < written {
          ShiftedIsDiv(num, written);
          NumDigitsDiv(num, written);
        }
      }
      PutDigit(buf, written, num, m);
      m := m / 10;
      written := written + 1;
      if m == 0 {
        assert written == Width(size, num) by {
          ShiftedIsDiv(num, written);
          NumDigitsDiv(num, written);
        }
        break;
      }
    }
  }

  /** One turn of the digit loop: `b'0' + num % 10` written just before the
      digits already there. */
  method PutDigit(buf: array<Byte>, written: nat, num: nat, m: nat)
    requires written < buf.Length && m == Shifted(num, written)
    requires buf[..] == Zeros(buf.Length - written) + LowDigits(num, written)
    modifies buf
    ensures buf[..] == Zeros(buf.Length - (written + 1)) + LowDigits(num, written + 1)
  {
    var digit := DigitByte(m % 10);
    ghost var before := buf[..];
    buf[buf.Length - 1 - written] := digit;
    assert buf[..] == before[buf.Length - 1 - written := digit];
    PadStep(before, buf.Length - written, digit, LowDigits(num, written));
    ShiftedIsDiv(num, written);
    DigitStep(num, written);
  }

  lemma {:induction false} PadStep(s: seq<Byte>, pad: nat, d: Byte, tail: seq<Byte>)
    requires 0 < pad && s == Zeros(pad) + tail
    ensures s[pad - 1 := d] == Zeros(pad - 1) + ([d] + tail)
  {
  }

  /** The second loop of `u64_to_array`: copy the non-zero bytes of `buf`, in
      order, to the front of a zeroed buffer of the same size. */
  method Compact(buf: array<Byte>) returns (res: seq<Byte>)
    ensures |NonNul(buf[..])| <= buf.Length
    ensures res == NonNul(buf[..]) + Zeros(buf.Length - |NonNul(buf[..])|)
  {
    var out := new Byte[buf.Length](_ => NUL);
    var i := 0;
    for j := 0 to buf.Length
      invariant i <= j
      invariant out[..i] == NonNul(buf[..j])
      invariant forall k :: i <= k < buf.Length ==> out[k] == NUL
    {
      assert NonNul(buf[..j + 1]) == NonNul(buf[..j]) + if buf[j] != NUL then [buf[j]] else [] by {
        assert buf[..j + 1][..j] == buf[..j];
      }
      if buf[j] != NUL {
        out[i] := buf[j];
        i := i + 1;
      }
    }
    assert buf[..buf.Length] == buf[..];
    res := out[..];
    assert res == res[..i] + res[i..];
  }

  /** `parse_lines_to_skip(buf)`. */
  method ParseLinesToSkip(buf: seq<Byte>) returns (result: nat)
    ensures result == ParseValue(buf)
  {
    result := 0;
    for k := 0 to |buf|
      invariant result == ParseValue(buf[..k])
    {
      assert buf[..k + 1][..k] == buf[..k];
      var digit := buf[k];
      if ZERO_CHAR <= digit <= NINE_CHAR {
        result := result * 10 + (digit - ZERO_CHAR);
      }
    }
    assert buf[..|buf|] == buf;
  }

  // ---------------------------------------------------------------------------
  // Reading and writing skipline.dat

  /** The eight-byte buffer after the startup read: it starts as eight `b'0'`
      and `read_exact` fills it from the front with what the file holds. */
  function ReadRecord(file: seq<Byte>): (buf: seq<Byte>)
    ensures |buf| == RECORD_SIZE
    ensures forall i :: 0 <= i < RECORD_SIZE ==> buf[i] == if i < |file| then file[i] else ZERO_CHAR
  {
    if |file| >= RECORD_SIZE then file[..RECORD_SIZE]
    else file + seq(RECORD_SIZE - |file|, _ => ZERO_CHAR)
  }

  /** The file after seeking to the start and writing `record`: the file is not
      truncated, so bytes beyond the record stay. */
  function Overwrite(file: seq<Byte>, record: seq<Byte>): (file': seq<Byte>)
    ensures |file'| == if |file| <= |record| then |record| else |file|
    ensures file'[..|record|] == record
    ensures forall i :: |record| <= i < |file| ==> file'[i] == file[i]
  {
    if |file| <= |record| then record else record + file[|record|..]
  }

  /** Startup: read the record and parse the number of lines to skip. */
  method LoadCursor(file: seq<Byte>) returns (linesToSkip: nat)
    ensures linesToSkip == ParseValue(ReadRecord(file))
    ensures linesToSkip < Pow10(RECORD_SIZE)
  {
    var buffer := ReadRecord(file);
    linesToSkip := ParseLinesToSkip(buffer);
    ParseBound(buffer);
  }

  /** Shutdown: render the counter and write it over the start of the file. */
  method SaveCursor(file: seq<Byte>, linesToSkip: U64) returns (file': seq<Byte>)
    ensures file' == Overwrite(file, Render(RECORD_SIZE, linesToSkip))
  {
    var record := U64ToArray(RECORD_SIZE, linesToSkip);
    file' := Overwrite(file, record);
  }

  // ---------------------------------------------------------------------------
  // Properties of the digit spelling

  /** `NumDigits(n)` is the number of places `n` needs: `n` is below `10^NumDigits(n)`
      and, when it is not zero, at least `10^(NumDigits(n) - 1)`. */
  lemma {:induction false} NumDigitsBounds(n: nat)
    ensures n < Pow10(NumDigits(n))
    ensures n == 0 || Pow10(NumDigits(n) - 1) <= n
  {
    if n >= 10 {
      NumDigitsBounds(n / 10);
    }
  }

  /** Dividing by `10^w` (w >= 1) leaves zero exactly when `n` has at most `w` digits. */
  lemma {:induction false} NumDigitsDiv(n: nat, w: nat)
    requires w >= 1
    ensures n / Pow10(w) == 0 <==> NumDigits(n) <= w
  {
    if w > 1 {
      ModTenTimes(n, Pow10(w - 1));
      NumDigitsDiv(n, w - 1);
      ModTenTimes(n / 10, Pow10(w - 2));
      if n >= 10 {
        NumDigitsDiv(n / 10, w - 1);
      }
      DivTen(n, w - 1);
    }
  }

  /** One turn of the digit loop: the next digit to the left, and the number left over. */
  lemma {:induction false} DigitStep(n: nat, w: nat)
    ensures n / Pow10(w) / 10 == n / Pow10(w + 1)
    ensures LowDigits(n, w + 1) == [DigitByte(n / Pow10(w) % 10)] + LowDigits(n, w)
  {
    DivDiv(n, Pow10(w), 10);
  }

  /** `n` after `w` turns of the loop's `num /= 10`. */
  function Shifted(n: nat, w: nat): nat {
    if w == 0 then n else Shifted(n, w - 1) / 10
  }

  lemma {:induction false} ShiftedIsDiv(n: nat, w: nat)
    ensures Shifted(n, w) == n / Pow10(w)
  {
    if w > 0 {
      ShiftedIsDiv(n, w - 1);
      DigitStep(n, w - 1);
    }
  }

  lemma {:induction false} DivTen(n: nat, k: nat)
    ensures n / 10 / Pow10(k) == n / Pow10(k + 1)
  {
    DivDiv(n, 10, Pow10(k));
  }

  /** Every byte of `LowDigits` is an ASCII digit. */
  lemma {:induction false} LowDigitsAreDigits(n: nat, w: nat)
    ensures forall i :: 0 <= i < w ==> IsDigit(LowDigits(n, w)[i])
  {
    if w > 0 {
      LowDigitsAreDigits(n, w - 1);
    }
  }

  /** `DigitCount` and `ParseValue` of a concatenation. */
  lemma {:induction false} ParseAppend(a: seq<Byte>, b: seq<Byte>)
    ensures DigitCount(a + b) == DigitCount(a) + DigitCount(b)
    ensures ParseValue(a + b) == ParseValue(a) * Pow10(DigitCount(b)) + ParseValue(b)
  {
    if b == [] {
      assert a + b == a;
    } else {
      var b', x := b[..|b| - 1], b[|b| - 1];
      assert (a + b)[..|a + b| - 1] == a + b';
      ParseAppend(a, b');
      if IsDigit(x) {
        ShiftDigit(ParseValue(a), Pow10(DigitCount(b')), ParseValue(b'), x - ZERO_CHAR);
      }
    }
  }

  lemma {:induction false} ShiftDigit(v: nat, p: nat, w: nat, d: nat)
    ensures (v * p + w) * 10 + d == v * (10 * p) + (w * 10 + d)
  {
  }

  /** A buffer without digit bytes parses to 0. */
  lemma {:induction false} ParseNoDigits(s: seq<Byte>)
    requires forall i :: 0 <= i < |s| ==> !IsDigit(s[i])
    ensures DigitCount(s) == 0 && ParseValue(s) == 0
  {
    if s != [] {
      ParseNoDigits(s[..|s| - 1]);
    }
  }

  /** A byte that is not a digit can be removed without changing the parse. */
  lemma {:induction false} ParseSkipsFiller(a: seq<Byte>, x: Byte, b: seq<Byte>)
    requires !IsDigit(x)
    ensures ParseValue(a + [x] + b) == ParseValue(a + b)
  {
    ParseAppend(a + [x], b);
    ParseAppend(a, b);
    assert (a + [x])[..|a + [x]| - 1] == a;
  }

  /** The parse of `s` has at most as many digits as `s` holds digit bytes; in
      particular an eight-byte record parses below `10^8` and fits a `u64`. */
  lemma {:induction false} ParseBound(s: seq<Byte>)
    ensures ParseValue(s) < Pow10(DigitCount(s))
    ensures ParseValue(s) < Pow10(|s|)
  {
    if s != [] {
      ParseBound(s[..|s| - 1]);
    }
    Pow10Monotone(DigitCount(s), |s|);
  }

  lemma {:induction false} Pow10Monotone(i: nat, j: nat)
    requires i <= j
    ensures Pow10(i) <= Pow10(j)
  {
    if i < j {
      Pow10Monotone(i, j - 1);
    }
  }

  /** Parsing the `w` low digits of `n` gives back `n mod 10^w`. */
  lemma {:induction false} ParseLowDigits(n: nat, w: nat)
    ensures DigitCount(LowDigits(n, w)) == w
    ensures ParseValue(LowDigits(n, w)) == n % Pow10(w)
  {
    if w > 0 {
      var d := (n / Pow10(w - 1)) % 10;
      ParseLowDigits(n, w - 1);
      ParseAppend([DigitByte(d)], LowDigits(n, w - 1));
      assert [DigitByte(d)][..0] == [];
      ModTenTimes(n, Pow10(w - 1));
    }
  }

  /** NUL bytes after the digits do not change the parse. */
  lemma {:induction false} ParseZeroPadded(s: seq<Byte>, k: nat)
    ensures ParseValue(s + Zeros(k)) == ParseValue(s)
  {
    ParseAppend(s, Zeros(k));
    ParseNoDigits(Zeros(k));
  }

  lemma {:induction false} NonNulAppend(a: seq<Byte>, b: seq<Byte>)
    ensures NonNul(a + b) == NonNul(a) + NonNul(b)
  {
    if b == [] {
      assert a + b == a;
    } else {
      assert (a + b)[..|a + b| - 1] == a + b[..|b| - 1];
      NonNulAppend(a, b[..|b| - 1]);
    }
  }

  /** The compaction of NUL padding followed by digits is the digits. */
  lemma {:induction false} NonNulPadded(k: nat, s: seq<Byte>)
    requires forall i :: 0 <= i < |s| ==> IsDigit(s[i])
    ensures NonNul(Zeros(k) + s) == s
  {
    NonNulAppend(Zeros(k), s);
    NonNulOfZeros(k);
    NonNulOfDigits(s);
  }

  lemma {:induction false} NonNulOfZeros(k: nat)
    ensures NonNul(Zeros(k)) == []
  {
    if k > 0 {
      assert Zeros(k)[..k - 1] == Zeros(k - 1);
      NonNulOfZeros(k - 1);
    }
  }

  lemma {:induction false} NonNulOfDigits(s: seq<Byte>)
    requires forall i :: 0 <= i < |s| ==> IsDigit(s[i])
    ensures NonNul(s) == s
  {
    if s != [] {
      NonNulOfDigits(s[..|s| - 1]);
    }
  }

  /** `Decimal(n)` spells `n`: it parses back to `n` and has no leading '0' unless `n` is 0. */
  lemma {:induction false} DecimalSpellsNumber(n: nat)
    ensures forall i :: 0 <= i < |Decimal(n)| ==> IsDigit(Decimal(n)[i])
    ensures ParseValue(Decimal(n)) == n
    ensures n > 0 ==> Decimal(n)[0] != ZERO_CHAR
  {
    LowDigitsAreDigits(n, NumDigits(n));
    ParseLowDigits(n, NumDigits(n));
    NumDigitsBounds(n);
    DivModUnique(n, Pow10(NumDigits(n)), 0, n);
    if n > 0 {
      LeadingDigit(n, Pow10(NumDigits(n) - 1));
    }
  }

  lemma {:induction false} LeadingDigit(n: nat, p: nat)
    requires 0 < p <= n < 10 * p
    ensures 1 <= n / p < 10 && (n / p) % 10 == n / p
  {
    assert n == (n / p) * p + n % p;
    if n / p >= 10 {
      MulMonotone(10, n / p, p);
    }
  }

  // ---------------------------------------------------------------------------
  // Properties of the rendered record

  /** Shape of the record: `size` bytes, each an ASCII digit or NUL, every digit
      before every NUL, and (for a non-empty record) at least one digit. */
  lemma {:induction false} RenderShape(size: nat, n: nat)
    ensures |Render(size, n)| == size
    ensures forall i :: 0 <= i < size ==> IsDigit(Render(size, n)[i]) || Render(size, n)[i] == NUL
    ensures forall i, j :: 0 <= i < j < size && Render(size, n)[i] == NUL ==> Render(size, n)[j] == NUL
    ensures size >= 1 ==> IsDigit(Render(size, n)[0])
  {
    LowDigitsAreDigits(n, Width(size, n));
  }

  /** A number that fits: its decimal spelling, then NUL bytes. Zero renders as a single '0'. */
  lemma {:induction false} RenderFits(size: nat, n: nat)
    requires 1 <= size && n < Pow10(size)
    ensures NumDigits(n) <= size
    ensures Render(size, n) == Decimal(n) + Zeros(size - NumDigits(n))
    ensures n == 0 ==> Render(size, n) == [ZERO_CHAR] + Zeros(size - 1)
  {
    if NumDigits(n) > size {
      NumDigitsBounds(n);
      Pow10Monotone(size, NumDigits(n) - 1);
    }
  }

  /** A number too wide for the record keeps only its `size` low digits, leading '0's included. */
  lemma {:induction false} RenderTooWide(size: nat, n: nat)
    requires Pow10(size) <= n
    ensures Render(size, n) == LowDigits(n, size)
  {
    NumDigitsBounds(n);
    if NumDigits(n) < size {
      Pow10Monotone(NumDigits(n), size);
    }
  }

  /** Parsing a rendered record gives the counter modulo `10^size`. */
  lemma {:induction false} RenderParseRoundTrip(size: nat, n: nat)
    ensures ParseValue(Render(size, n)) == n % Pow10(size)
  {
    var w := Width(size, n);
    ParseZeroPadded(LowDigits(n, w), size - w);
    ParseLowDigits(n, w);
    if w < size {
      NumDigitsBounds(n);
      Pow10Monotone(w, size);
      DivModUnique(n, Pow10(w), 0, n);
      DivModUnique(n, Pow10(size), 0, n);
    }
  }

  /** What is saved at shutdown is what the next startup loads, for every counter below `10^8`;
      a wider counter comes back reduced modulo `10^8`. */
  lemma {:induction false} SaveLoadRoundTrip(file: seq<Byte>, c: U64)
    ensures ParseValue(ReadRecord(Overwrite(file, Render(RECORD_SIZE, c)))) == c % Pow10(RECORD_SIZE)
    ensures c < Pow10(RECORD_SIZE) ==> ParseValue(ReadRecord(Overwrite(file, Render(RECORD_SIZE, c)))) == c
  {
    var record := Render(RECORD_SIZE, c);
    assert ReadRecord(Overwrite(file, record)) == record;
    RenderParseRoundTrip(RECORD_SIZE, c);
    if c < Pow10(RECORD_SIZE) {
      DivModUnique(c, Pow10(RECORD_SIZE), 0, c);
    }
  }

  /** A file shorter than the record is read with '0' bytes filling the rest, so its
      digits count as the high places: a one-byte file holding "5" loads as 50000000. */
  /** A file shorter than the record keeps the `'0'` fill of the buffer: each
      missing byte is one more decimal digit 0 after the file's own. */
  lemma {:induction false} ShortFileScales(file: seq<Byte>)
    requires |file| < RECORD_SIZE
    ensures ParseValue(ReadRecord(file)) == ParseValue(file) * Pow10(RECORD_SIZE - |file|)
  {
    var k := RECORD_SIZE - |file|;
    assert ReadRecord(file) == file + seq(k, _ => ZERO_CHAR);
    ParseAppend(file, seq(k, _ => ZERO_CHAR));
    ParseZerosChars(k);
  }

  /** The file `"5"` loads as 50000000. */
  lemma {:induction false} ShortFileLoad()
    ensures ParseValue(ReadRecord([0x35])) == 50000000
  {
    ShortFileScales([0x35]);
    assert [0x35][..0] == [];
    assert ParseValue([0x35]) == 5;
    assert Pow10(7) == 10000000;
  }

  lemma {:induction false} ParseZerosChars(k: nat)
    ensures DigitCount(seq(k, _ => ZERO_CHAR)) == k
    ensures ParseValue(seq(k, _ => ZERO_CHAR)) == 0
  {
    if k > 0 {
      assert seq(k, _ => ZERO_CHAR)[..k - 1] == seq(k - 1, _ => ZERO_CHAR);
      ParseZerosChars(k - 1);
    }
  }
}
