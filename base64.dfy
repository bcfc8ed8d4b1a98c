/**
 * Standard base64 (section 4 of RFC 4648, alphabet A-Z a-z 0-9 + /, padding '='),
 * as Go's `base64.StdEncoding` encodes it, and as `base64.NewDecoder` decodes it:
 * carriage returns and line feeds are skipped, every other character must belong
 * to the alphabet, input comes in quanta of four characters, and padding may only
 * close the last quantum of the text (Go's streaming decoder checks this within
 * each chunk it reads, see the README). Like Go's non-strict decoder, the unused
 * low bits of a padded quantum are ignored.
 */
module Base64 {
  import opened Octets
  import opened Wrappers
  import opened Sequences

  const Pad: char := '='

  datatype DecodeError = CorruptInput | UnexpectedEnd

  predicate IsAlphabet(c: char) {
    ('A' <= c <= 'Z') || ('a' <= c <= 'z') || ('0' <= c <= '9') || c == '+' || c == '/'
  }

  /** The character that encodes the 6-bit value `v`. */
  function CharOf(v: bv8): (c: char)
    requires v < 64
    ensures IsAlphabet(c) && ValueOf(c) == v
  {
    if v < 26 then (65 + v as int) as char
    else if v < 52 then (97 + v as int - 26) as char
    else if v < 62 then (48 + v as int - 52) as char
    else if v == 62 then '+'
    else '/'
  }

  /** The 6-bit value encoded by the alphabet character `c`. */
  function ValueOf(c: char): (v: bv8)
    requires IsAlphabet(c)
    ensures v < 64
  {
    if 'A' <= c <= 'Z' then (c as int - 65) as bv8
    else if 'a' <= c <= 'z' then (c as int - 97 + 26) as bv8
    else if '0' <= c <= '9' then (c as int - 48 + 52) as bv8
    else if c == '+' then 62
    else 63
  }

  /** The four characters for one to three input bytes (padded when fewer than three). */
  function EncodeQuantum(b: Bytes): (q: string)
    requires 1 <= |b| <= 3
    ensures |q| == 4
    ensures IsAlphabet(q[0]) && IsAlphabet(q[1])
    ensures IsAlphabet(q[2]) <==> |b| > 1
    ensures IsAlphabet(q[3]) <==> |b| > 2
    ensures |b| <= 1 ==> q[2] == Pad
    ensures |b| <= 2 ==> q[3] == Pad
  {
    var b0 := b[0];
    var b1: bv8 := if |b| > 1 then b[1] else 0;
    var b2: bv8 := if |b| > 2 then b[2] else 0;
    var c0 := CharOf(b0 >> 2);
    var c1 := CharOf(((b0 & 3) << 4) | (b1 >> 4));
    var c2 := if |b| > 1 then CharOf(((b1 & 15) << 2) | (b2 >> 6)) else Pad;
    var c3 := if |b| > 2 then CharOf(b2 & 63) else Pad;
    [c0, c1, c2, c3]
  }

  /** Four characters per started group of three bytes. */
  lemma QuantaCount(n: nat)
    ensures 1 <= n <= 3 ==> 4 * ((n + 2) / 3) == 4
    ensures n > 3 ==> 4 + 4 * ((n - 3 + 2) / 3) == 4 * ((n + 2) / 3)
  {
  }

  function Encode(b: Bytes): (s: string)
    ensures |s| == 4 * ((|b| + 2) / 3)
    decreases |b|
  {
    QuantaCount(|b|);
    if |b| == 0 then []
    else if |b| <= 3 then EncodeQuantum(b)
    else EncodeQuantum(b[..3]) + Encode(b[3..])
  }

  lemma QuantumAlphabet(b: Bytes)
    requires 1 <= |b| <= 3
    ensures forall i :: 0 <= i < 4 ==> IsAlphabet(EncodeQuantum(b)[i]) || EncodeQuantum(b)[i] == Pad
  {
    var q := EncodeQuantum(b);
    forall i | 0 <= i < 4 ensures IsAlphabet(q[i]) || q[i] == Pad {
      if i == 2 {
        assert IsAlphabet(q[2]) || |b| <= 1;
      } else if i == 3 {
        assert IsAlphabet(q[3]) || |b| <= 2;
      }
    }
  }

  /** Every character of an encoding is from the alphabet or is padding. */
  lemma {:induction false} EncodeAlphabet(b: Bytes)
    ensures forall i :: 0 <= i < |Encode(b)| ==> IsAlphabet(Encode(b)[i]) || Encode(b)[i] == Pad
    decreases |b|
  {
    var s := Encode(b);
    if 0 < |b| <= 3 {
      QuantumAlphabet(b);
    } else if |b| > 3 {
      var head, tail := EncodeQuantum(b[..3]), Encode(b[3..]);
      QuantumAlphabet(b[..3]);
      EncodeAlphabet(b[3..]);
      assert s == head + tail;
      forall i | 0 <= i < |s| ensures IsAlphabet(s[i]) || s[i] == Pad {
        if i < 4 {
          assert s[i] == head[i];
        } else {
          assert s[i] == tail[i - 4];
        }
      }
    }
  }

  /** One quantum of four characters; `last` says whether padding is allowed here. */
  function DecodeQuantum(q: string, last: bool): (r: Result<Bytes, DecodeError>)
    requires |q| == 4
    ensures r.Success? ==> 1 <= |r.value| <= 3 && (|r.value| < 3 ==> last)
  {
    if !IsAlphabet(q[0]) || !IsAlphabet(q[1]) then Failure(CorruptInput)
    else
      var v0, v1 := ValueOf(q[0]), ValueOf(q[1]);
      var o0 := (v0 << 2) | (v1 >> 4);
      if q[2] == Pad then
        if q[3] == Pad && last then Success([o0]) else Failure(CorruptInput)
      else if !IsAlphabet(q[2]) then Failure(CorruptInput)
      else
        var v2 := ValueOf(q[2]);
        var o1 := (v1 << 4) | (v2 >> 2);
        if q[3] == Pad then
          if last then Success([o0, o1]) else Failure(CorruptInput)
        else if !IsAlphabet(q[3]) then Failure(CorruptInput)
        else
          var v3 := ValueOf(q[3]);
          Success([o0, o1, (v2 << 6) | v3])
  }

  /** Decoding of text already freed of line breaks. */
  function DecodeQuanta(s: string): (r: Result<Bytes, DecodeError>)
    decreases |s|
  {
    if |s| == 0 then Success([])
    else if |s| < 4 then Failure(UnexpectedEnd)
    else
      match DecodeQuantum(s[..4], |s| == 4)
      case Failure(e) => Failure(e)
      case Success(head) =>
        match DecodeQuanta(s[4..])
        case Failure(e) => Failure(e)
        case Success(tail) => Success(head + tail)
  }

  /** The bit-level identities behind one quantum: the four sextets of three bytes join back into them. */
  lemma SextetsJoin(b0: bv8, b1: bv8, b2: bv8, v0: bv8, v1: bv8, v2: bv8, v3: bv8)
    requires v0 == b0 >> 2 && v1 == ((b0 & 3) << 4) | (b1 >> 4)
    requires v2 == ((b1 & 15) << 2) | (b2 >> 6) && v3 == b2 & 63
    ensures (v0 << 2) | (v1 >> 4) == b0
    ensures (v1 << 4) | (v2 >> 2) == b1
    ensures (v2 << 6) | v3 == b2
  {
  }

  /** Four alphabet characters decode to the three bytes their sextets join into. */
  lemma DecodeAlphabet(q: string, last: bool)
    requires |q| == 4 && IsAlphabet(q[0]) && IsAlphabet(q[1]) && IsAlphabet(q[2]) && IsAlphabet(q[3])
    ensures DecodeQuantum(q, last) == Success([
              (ValueOf(q[0]) << 2) | (ValueOf(q[1]) >> 4),
              (ValueOf(q[1]) << 4) | (ValueOf(q[2]) >> 2),
              (ValueOf(q[2]) << 6) | ValueOf(q[3])])
  {
    assert q[2] != Pad && q[3] != Pad;
  }

  /** Decoding four alphabet characters joins their four sextets into three bytes. */
  lemma DecodeSextets(v0: bv8, v1: bv8, v2: bv8, v3: bv8, last: bool)
    requires v0 < 64 && v1 < 64 && v2 < 64 && v3 < 64
    ensures DecodeQuantum([CharOf(v0), CharOf(v1), CharOf(v2), CharOf(v3)], last)
         == Success([(v0 << 2) | (v1 >> 4), (v1 << 4) | (v2 >> 2), (v2 << 6) | v3])
  {
    var q := [CharOf(v0), CharOf(v1), CharOf(v2), CharOf(v3)];
    assert ValueOf(q[0]) == v0 && ValueOf(q[1]) == v1 && ValueOf(q[2]) == v2 && ValueOf(q[3]) == v3;
    DecodeAlphabet(q, last);
  }

  lemma EncodeSextets(b0: bv8, b1: bv8, b2: bv8)
    ensures EncodeQuantum([b0, b1, b2])
         == [CharOf(b0 >> 2), CharOf(((b0 & 3) << 4) | (b1 >> 4)), CharOf(((b1 & 15) << 2) | (b2 >> 6)), CharOf(b2 & 63)]
  {
  }

  lemma FullQuantumRoundTrip(b0: bv8, b1: bv8, b2: bv8, last: bool)
    ensures DecodeQuantum(EncodeQuantum([b0, b1, b2]), last) == Success([b0, b1, b2])
  {
    var v0, v1 := b0 >> 2, ((b0 & 3) << 4) | (b1 >> 4);
    var v2, v3 := ((b1 & 15) << 2) | (b2 >> 6), b2 & 63;
    EncodeSextets(b0, b1, b2);
    DecodeSextets(v0, v1, v2, v3, last);
    SextetsJoin(b0, b1, b2, v0, v1, v2, v3);
  }

  lemma EncodePair(b0: bv8, b1: bv8)
    ensures EncodeQuantum([b0, b1]) == [CharOf(b0 >> 2), CharOf(((b0 & 3) << 4) | (b1 >> 4)), CharOf((b1 & 15) << 2), Pad]
  {
  }

  lemma DecodePair(v0: bv8, v1: bv8, v2: bv8)
    requires v0 < 64 && v1 < 64 && v2 < 64
    ensures DecodeQuantum([CharOf(v0), CharOf(v1), CharOf(v2), Pad], true)
         == Success([(v0 << 2) | (v1 >> 4), (v1 << 4) | (v2 >> 2)])
  {
    var q := [CharOf(v0), CharOf(v1), CharOf(v2), Pad];
    assert ValueOf(q[0]) == v0 && ValueOf(q[1]) == v1 && ValueOf(q[2]) == v2;
    DecodeOnePad(q);
  }

  /** Three alphabet characters and one pad decode, at the end, to two bytes. */
  lemma DecodeOnePad(q: string)
    requires |q| == 4 && IsAlphabet(q[0]) && IsAlphabet(q[1]) && IsAlphabet(q[2]) && q[3] == Pad
    ensures DecodeQuantum(q, true) == Success([
              (ValueOf(q[0]) << 2) | (ValueOf(q[1]) >> 4),
              (ValueOf(q[1]) << 4) | (ValueOf(q[2]) >> 2)])
  {
    assert q[2] != Pad;
  }

  lemma PairQuantumRoundTrip(b0: bv8, b1: bv8)
    ensures DecodeQuantum(EncodeQuantum([b0, b1]), true) == Success([b0, b1])
  {
    var z: bv8 := 0;
    var v0, v1, v2 := b0 >> 2, ((b0 & 3) << 4) | (b1 >> 4), ((b1 & 15) << 2) | (z >> 6);
    EncodePair(b0, b1);
    DecodePair(v0, v1, v2);
    SextetsJoin(b0, b1, z, v0, v1, v2, z & 63);
  }

  lemma EncodeSingle(b0: bv8)
    ensures EncodeQuantum([b0]) == [CharOf(b0 >> 2), CharOf((b0 & 3) << 4), Pad, Pad]
  {
  }

  lemma DecodeSingle(v0: bv8, v1: bv8)
    requires v0 < 64 && v1 < 64
    ensures DecodeQuantum([CharOf(v0), CharOf(v1), Pad, Pad], true) == Success([(v0 << 2) | (v1 >> 4)])
  {
    var q := [CharOf(v0), CharOf(v1), Pad, Pad];
    assert ValueOf(q[0]) == v0 && ValueOf(q[1]) == v1;
    assert IsAlphabet(q[0]) && IsAlphabet(q[1]) && q[2] == Pad && q[3] == Pad;
  }

  lemma SingleQuantumRoundTrip(b0: bv8)
    ensures DecodeQuantum(EncodeQuantum([b0]), true) == Success([b0])
  {
    var v0, v1 := b0 >> 2, (b0 & 3) << 4;
    EncodeSingle(b0);
    DecodeSingle(v0, v1);
    SextetsJoin(b0, 0, 0, v0, v1, 0, 0);
  }

  lemma QuantumRoundTrip(b: Bytes, last: bool)
    requires 1 <= |b| <= 3
    requires |b| < 3 ==> last
    ensures DecodeQuantum(EncodeQuantum(b), last) == Success(b)
  {
    if |b| == 1 {
      assert b == [b[0]];
      SingleQuantumRoundTrip(b[0]);
    } else if |b| == 2 {
      assert b == [b[0], b[1]];
      PairQuantumRoundTrip(b[0], b[1]);
    } else {
      assert b == [b[0], b[1], b[2]];
      FullQuantumRoundTrip(b[0], b[1], b[2], last);
    }
  }

  /** A decoded quantum in front of decoded text decodes together with it. */
  lemma DecodeQuantaStep(q: string, rest: string, head: Bytes, tail: Bytes)
    requires |q| == 4
    requires DecodeQuantum(q, rest == []) == Success(head)
    requires DecodeQuanta(rest) == Success(tail)
    ensures DecodeQuanta(q + rest) == Success(head + tail)
  {
    var s := q + rest;
    assert s[..4] == q && s[4..] == rest;
  }

  lemma EncodeNonEmpty(b: Bytes)
    requires |b| > 0
    ensures Encode(b) != []
  {
    assert |EncodeQuantum(if |b| <= 3 then b else b[..3])| == 4;
  }

  lemma {:induction false} RoundTrip(b: Bytes)
    ensures DecodeQuanta(Encode(b)) == Success(b)
    decreases |b|
  {
    if 0 < |b| <= 3 {
      var q := EncodeQuantum(b);
      QuantumRoundTrip(b, true);
      DecodeQuantaStep(q, [], b, []);
      assert q + [] == q && b + [] == b;
    } else if |b| > 3 {
      var q, rest := EncodeQuantum(b[..3]), Encode(b[3..]);
      QuantumRoundTrip(b[..3], false);
      EncodeNonEmpty(b[3..]);
      RoundTrip(b[3..]);
      DecodeQuantaStep(q, rest, b[..3], b[3..]);
      SplitAt(b, 3);
    }
  }

  predicate IsLineBreak(c: char) { c == '\r' || c == '\n' }

  /** The text with every carriage return and line feed removed, as Go's decoder sees it. */
  function DropLineBreaks(s: string): (r: string)
    ensures |r| <= |s|
    ensures forall i :: 0 <= i < |r| ==> !IsLineBreak(r[i])
    ensures (forall i :: 0 <= i < |s| ==> !IsLineBreak(s[i])) ==> r == s
  {
    if s == [] then []
    else if IsLineBreak(s[0]) then DropLineBreaks(s[1..])
    else [s[0]] + DropLineBreaks(s[1..])
  }

  lemma {:induction false} DropLineBreaksAppend(a: string, b: string)
    ensures DropLineBreaks(a + b) == DropLineBreaks(a) + DropLineBreaks(b)
  {
    if a == [] {
      assert a + b == b;
    } else {
      assert (a + b)[1..] == a[1..] + b;
      DropLineBreaksAppend(a[1..], b);
    }
  }

  /**
   * How much a successful decoding yields: the text is whole quanta of four
   * characters, each giving three bytes, less at most two for the padding at the end.
   */
  lemma {:induction false} DecodedLength(s: string)
    ensures DecodeQuanta(s).Success? ==>
              && |s| % 4 == 0
              && 4 * |DecodeQuanta(s).value| <= 3 * |s| <= 4 * |DecodeQuanta(s).value| + 8
    decreases |s|
  {
    if |s| >= 4 && DecodeQuanta(s).Success? {
      var rest := s[4..];
      var head := DecodeQuantum(s[..4], rest == []).value;
      var tail := DecodeQuanta(rest).value;
      assert DecodeQuanta(s).value == head + tail;
      assert 1 <= |head| <= 3 && (rest != [] ==> |head| == 3);
      DecodedLength(rest);
      QuantumMod(|rest|);
    }
  }

  lemma QuantumMod(n: nat)
    ensures (n + 4) % 4 == n % 4
  {
  }

  /** What `base64.NewDecoder(base64.StdEncoding, r)` yields for the text `s`. */
  function Decode(s: string): (r: Result<Bytes, DecodeError>)
    ensures r.Success? ==> |DropLineBreaks(s)| % 4 == 0
    ensures r.Success? ==> 4 * |r.value| <= 3 * |DropLineBreaks(s)| <= 4 * |r.value| + 8
  {
    DecodedLength(DropLineBreaks(s));
    DecodeQuanta(DropLineBreaks(s))
  }

  /** Decoding undoes encoding, even once line breaks have been put into the encoded text. */
  lemma DecodeEncode(b: Bytes, s: string)
    requires DropLineBreaks(s) == Encode(b)
    ensures Decode(s) == Success(b)
  {
    RoundTrip(b);
  }

  /** The encoded text uses only the 64 alphabet characters and '=': never a dash or a line break. */
  lemma EncodeHasNoDash(b: Bytes)
    ensures forall i :: 0 <= i < |Encode(b)| ==> Encode(b)[i] != '-' && !IsLineBreak(Encode(b)[i])
  {
    EncodeAlphabet(b);
  }
}
