/**
 * `wider_string`: the window name turned into a NUL-terminated UTF-16 buffer
 * for the wide-character window API. Code points become UTF-16 code units as
 * in section 2.1 of RFC 2781: a code point up to U+FFFF is one unit equal to
 * itself, a supplementary one a high surrogate (0xD800 plus the top ten bits
 * of `cp - 0x10000`) followed by a low surrogate (0xDC00 plus the bottom ten
 * bits). The buffer has one unit more than the encoding needs, left at 0.
 */
module WideString {
  import opened Base

  /** A Unicode scalar value, what the UTF-8 decoder yields. */
  type CodePoint = c: int | 0 <= c < 0x11_0000 && !(0xD800 <= c < 0xE000)

  predicate IsHighSurrogate(u: U16) { 0xD800 <= u < 0xDC00 }
  predicate IsLowSurrogate(u: U16) { 0xDC00 <= u < 0xE000 }

  /** The units of one code point. */
  function Units(c: CodePoint): (u: seq<U16>)
    ensures |u| == 1 <==> c <= 0xFFFF
    ensures |u| == 1 ==> u[0] == c && !IsHighSurrogate(u[0]) && !IsLowSurrogate(u[0])
    ensures |u| != 1 ==> |u| == 2 && IsHighSurrogate(u[0]) && IsLowSurrogate(u[1])
  {
    if c <= 0xFFFF then [c]
    else [0xD800 + (c - 0x1_0000) / 0x400, 0xDC00 + (c - 0x1_0000) % 0x400]
  }

  /** The UTF-16 encoding of a code point sequence. */
  function Encode(cps: seq<CodePoint>): seq<U16> {
    if cps == [] then [] else Units(cps[0]) + Encode(cps[1..])
  }

  /** `utf16_len`: the number of units, one per code point and one more per supplementary code point. */
  function Utf16Len(cps: seq<CodePoint>): (n: nat)
    ensures n == |Encode(cps)|
    ensures |cps| <= n <= 2 * |cps|
  {
    if cps == [] then 0 else (if cps[0] <= 0xFFFF then 1 else 2) + Utf16Len(cps[1..])
  }

  /** UTF-16 decoding, the inverse: `None` on a lone or misplaced surrogate. */
  function Decode(units: seq<U16>): Option<seq<CodePoint>>
    decreases |units|
  {
    if units == [] then Some([])
    else if !IsHighSurrogate(units[0]) && !IsLowSurrogate(units[0]) then
      match Decode(units[1..])
      case Some(rest) => Some([units[0] as CodePoint] + rest)
      case None => None
    else if IsHighSurrogate(units[0]) && |units| >= 2 && IsLowSurrogate(units[1]) then
      var c: int := 0x1_0000 + (units[0] as int - 0xD800) * 0x400 + (units[1] as int - 0xDC00);
      match Decode(units[2..])
      case Some(rest) => Some([c as CodePoint] + rest)
      case None => None
    else None
  }

  /** The loop of `wider_string`: a zeroed buffer of `utf16_len + 1` units
      written one code point at a time. */
  method WiderString(cps: seq<CodePoint>) returns (buffer: array<U16>)
    ensures buffer[..] == Encode(cps) + [0]
  {
    var outputLen := Utf16Len(cps) + 1;
    buffer := new U16[outputLen](_ => 0);
    var outputPos := 0;
    ghost var done: seq<U16> := [];
    assert cps[0..] == cps;
    for inputPos := 0 to |cps|
      invariant done == Encode(cps[..inputPos]) && outputPos == |done| < outputLen
      invariant buffer[..] == done + Blank(outputLen - |done|)
    {
      var codePoint := cps[inputPos];
      ghost var units := Units(codePoint);
      assert Encode(cps[..inputPos + 1]) == done + units && |done + units| < outputLen by {
        EncodeStep(cps, inputPos);
        EncodeAppend(cps[..inputPos + 1], cps[inputPos + 1..]);
        assert cps[..inputPos + 1] + cps[inputPos + 1..] == cps;
      }
      outputPos := PutUnits(buffer, outputPos, codePoint, done);
      done := done + units;
    }
    assert done == Encode(cps) by {
      assert cps[..|cps|] == cps;
    }
    assert Blank(1) == [0];
  }

  /** One turn of the loop: the units of `c` written from `pos` on, into the
      untouched end of a buffer that holds `done` before it. */
  method PutUnits(buffer: array<U16>, pos: nat, c: CodePoint, ghost done: seq<U16>) returns (next: nat)
    requires pos == |done| && pos + |Units(c)| <= buffer.Length
    requires buffer[..] == done + Blank(buffer.Length - |done|)
    modifies buffer
    ensures next == pos + |Units(c)|
    ensures buffer[..] == (done + Units(c)) + Blank(buffer.Length - |done + Units(c)|)
  {
    ghost var before := buffer[..];
    if c <= 0xFFFF {
      buffer[pos] := c;
      next := pos + 1;
    } else {
      var offset: int := c as int - 0x1_0000;
      buffer[pos] := 0xD800 + offset / 0x400;
      buffer[pos + 1] := 0xDC00 + offset % 0x400;
      next := pos + 2;
    }
    assert buffer[..] == before[..pos] + Units(c) + before[next..];
    Splice(before, done, Units(c), buffer.Length, pos, next);
  }

  /** `k` zero units, the untouched end of the buffer. */
  function Blank(k: nat): (z: seq<U16>)
    ensures |z| == k
    ensures forall i :: 0 <= i < k ==> z[i] == 0
  {
    if k == 0 then [] else [0] + Blank(k - 1)
  }

  /** Writing units at the start of the untouched end of the buffer. */
  lemma {:induction false} Splice(buf: seq<U16>, done: seq<U16>, units: seq<U16>, len: nat, pos: nat, next: nat)
    requires pos == |done| && next == pos + |units| <= len && buf == done + Blank(len - pos)
    ensures buf[..pos] + units + buf[next..] == (done + units) + Blank(len - |done + units|)
  {
    assert buf[..pos] == done;
    assert buf[next..] == Blank(len - next);
  }

  /** The encoding grows by the units of one code point per turn of the loop. */
  lemma {:induction false} EncodeStep(cps: seq<CodePoint>, i: nat)
    requires i < |cps|
    ensures Encode(cps[..i + 1]) == Encode(cps[..i]) + Units(cps[i])
    ensures |Encode(cps[i..])| == |Units(cps[i])| + |Encode(cps[i + 1..])|
  {
    EncodeAppend(cps[..i], [cps[i]]);
    assert cps[..i + 1] == cps[..i] + [cps[i]];
    assert cps[i..] == [cps[i]] + cps[i + 1..];
    assert Encode([cps[i]]) == Units(cps[i]);
  }

  lemma {:induction false} EncodeAppend(a: seq<CodePoint>, b: seq<CodePoint>)
    ensures Encode(a + b) == Encode(a) + Encode(b)
  {
    if a == [] {
      assert a + b == b;
    } else {
      assert (a + b)[1..] == a[1..] + b;
      EncodeAppend(a[1..], b);
    }
  }

  /** Decoding the encoding gives back the code points. */
  lemma {:induction false} DecodeEncode(cps: seq<CodePoint>)
    ensures Decode(Encode(cps)) == Some(cps)
  {
    if cps != [] {
      DecodeEncode(cps[1..]);
      DecodeUnits(cps[0], Encode(cps[1..]), cps[1..]);
      assert [cps[0]] + cps[1..] == cps;
    }
  }

  /** Decoding reads back the units of one code point at the front. */
  lemma {:induction false} DecodeUnits(c: CodePoint, rest: seq<U16>, tail: seq<CodePoint>)
    requires Decode(rest) == Some(tail)
    ensures Decode(Units(c) + rest) == Some([c] + tail)
  {
    var units := Units(c) + rest;
    if c <= 0xFFFF {
      assert units[1..] == rest;
    } else {
      assert units[2..] == rest;
      var off: int := c as int - 0x1_0000;
      assert off == (off / 0x400) * 0x400 + off % 0x400;
    }
  }

  /** Different code point sequences never share an encoding. */
  lemma {:induction false} EncodeInjective(a: seq<CodePoint>, b: seq<CodePoint>)
    requires Encode(a) == Encode(b)
    ensures a == b
  {
    DecodeEncode(a);
    DecodeEncode(b);
  }

  /** The encoding has no lone surrogate: every high surrogate is followed by a
      low one and every low surrogate follows a high one. */
  lemma {:induction false} EncodePairsSurrogates(cps: seq<CodePoint>)
    ensures forall k :: 0 <= k < |Encode(cps)| && IsHighSurrogate(Encode(cps)[k]) ==>
      k + 1 < |Encode(cps)| && IsLowSurrogate(Encode(cps)[k + 1])
    ensures forall k :: 0 <= k < |Encode(cps)| && IsLowSurrogate(Encode(cps)[k]) ==>
      0 < k && IsHighSurrogate(Encode(cps)[k - 1])
  {
    if cps != [] {
      var u, rest := Units(cps[0]), Encode(cps[1..]);
      var s := Encode(cps);
      assert s == u + rest;
      EncodePairsSurrogates(cps[1..]);
      forall k | 0 <= k < |s| && IsHighSurrogate(s[k])
        ensures k + 1 < |s| && IsLowSurrogate(s[k + 1])
      {
        if |u| <= k {
          assert s[k] == rest[k - |u|] && s[k + 1] == rest[k - |u| + 1];
        }
      }
      forall k | 0 <= k < |s| && IsLowSurrogate(s[k])
        ensures 0 < k && IsHighSurrogate(s[k - 1])
      {
        if |u| <= k {
          assert s[k] == rest[k - |u|];
          assert 0 < k - |u| && s[k - 1] == rest[k - |u| - 1];
        }
      }
    }
  }
}
