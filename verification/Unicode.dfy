/**
  The UTF-8 and UTF-16 converters of the FAT driver (section 3 of RFC 3629,
  sections 2.1 and 2.2 of RFC 2781), for one character and for whole strings.
  A string is the sequence of its units without the terminator.
 */
module Unicode {
  import opened FatEntry

  type Word = x: int | 0 <= x < 0x1_0000

  const EILSEQ := 84
  const ENAMETOOLONG := 36
  const EINVAL := 22

  // Lead bytes: the unmasked bits count from 0 to STEP[k]-1, the masked ones are VAL[k].
  const STEP: seq<int> := [0x80, 0x20, 0x10, 0x08]
  const VAL: seq<int> := [0x00, 0xC0, 0xE0, 0xF0]

  predicate LeadIs(b: int, k: nat)
    requires k < 4
  {
    b / STEP[k] * STEP[k] == VAL[k]
  }

  datatype Decoded = Bad | Char(cp: nat, len: nat)

  /** The number of continuation bytes a lead byte announces; 4 for a byte that is no lead byte. */
  function Extra(b: Byte): (k: nat)
    ensures k <= 4
    ensures k < 4 ==> LeadIs(b, k) && forall i :: 0 <= i < k ==> !LeadIs(b, i)
    ensures k == 4 ==> forall i :: 0 <= i < 4 ==> !LeadIs(b, i)
  {
    if b < 0x80 then 0 else if 0xC0 <= b < 0xE0 then 1 else if 0xE0 <= b < 0xF0 then 2
    else if 0xF0 <= b < 0xF8 then 3 else 4
  }

  /** Length of a character, from its lead byte. */
  method Utf8Len(lead: Byte) returns (r: int)
    ensures r == if Extra(lead) < 4 then Extra(lead) + 1 else -EILSEQ
  {
    var k := 0;
    while k < 4
      invariant 0 <= k <= 4
      invariant forall i :: 0 <= i < k ==> !LeadIs(lead, i)
    {
      if LeadIs(lead, k) {
        LeadUnique(lead, k);
        return k + 1;
      }
      k := k + 1;
    }
    return -EILSEQ;
  }

  lemma LeadUnique(b: Byte, k: nat)
    requires k < 4 && LeadIs(b, k)
    ensures Extra(b) == k
  {
  }

  /** Takes the continuation bytes j+1..k of s into wc. */
  function Continue(s: seq<Byte>, wc: nat, j: nat, k: nat): (r: Decoded)
    requires j <= k
    ensures r.Char? ==> r.len == k + 1
    ensures r.Char? && j < k ==> k < |s|
    decreases k - j
  {
    if j == k then Char(wc, k + 1)
    else if j + 1 >= |s| || s[j + 1] / 64 != 2 then Bad
    else Continue(s, wc * 64 + s[j + 1] % 64, j + 1, k)
  }

  /** The first character of s. */
  function Decode8(s: seq<Byte>): (r: Decoded)
    requires s != []
    ensures r.Char? ==> 1 <= r.len <= 4 && r.len <= |s|
  {
    var k := Extra(s[0]);
    if k == 4 then Bad else Continue(s, s[0] % STEP[k], 0, k)
  }

  /** The byte is a continuation byte. */
  predicate Continues(b: Byte) { 0x80 <= b < 0xC0 }

  /** The bytes that are no character: no lead byte in front, or not as many continuation bytes as it announces. */
  lemma Decode8BadIff(s: seq<Byte>)
    requires s != []
    ensures Decode8(s) == Bad <==>
            || Extra(s[0]) == 4 || |s| <= Extra(s[0])
            || exists i :: 1 <= i <= Extra(s[0]) && !Continues(s[i])
  {
    hide Extra;
    var k := Extra(s[0]);
    if k < 4 { ContinueBadIff(s, s[0] % STEP[k], 0, k); }
  }

  lemma {:induction false} ContinueBadIff(s: seq<Byte>, wc: nat, j: nat, k: nat)
    requires j <= k && j < |s|
    ensures Continue(s, wc, j, k) == Bad <==> |s| <= k || exists i :: j < i <= k && !Continues(s[i])
    decreases k - j
  {
    if j < k && j + 1 < |s| && s[j + 1] / 64 == 2 {
      assert Continues(s[j + 1]);
      ContinueBadIff(s, wc * 64 + s[j + 1] % 64, j + 1, k);
    } else if j < k && j + 1 < |s| {
      assert !Continues(s[j + 1]);
    }
  }

  /** What a continuation byte adds. */
  function Six(b: int): int { b - 0x80 }

  /** The value of the characters, overlong ones included: six bits from each continuation byte. */
  lemma Decode8Value(s: seq<Byte>)
    requires s != [] && Decode8(s).Char?
    ensures var r, b: int := Decode8(s), s[0];
      && (r.len == 1 ==> r.cp == b)
      && (r.len == 2 ==> r.cp == (b - 0xC0) * 64 + Six(s[1]))
      && (r.len == 3 ==> r.cp == ((b - 0xE0) * 64 + Six(s[1])) * 64 + Six(s[2]))
      && (r.len == 4 ==> r.cp == (((b - 0xF0) * 64 + Six(s[1])) * 64 + Six(s[2])) * 64 + Six(s[3]))
  {
    var k := Extra(s[0]);
    if k >= 1 { Continued(s, s[0] % STEP[k], 0, k); }
    if k >= 2 { Continued(s, s[0] % STEP[k] * 64 + s[1] % 64, 1, k); }
    if k >= 3 { Continued(s, (s[0] % STEP[k] * 64 + s[1] % 64) * 64 + s[2] % 64, 2, k); }
  }

  lemma Continued(s: seq<Byte>, wc: nat, j: nat, k: nat)
    requires j < k && Continue(s, wc, j, k).Char?
    ensures j + 1 < |s| && s[j + 1] == 0x80 + s[j + 1] % 64
    ensures Continue(s, wc, j, k) == Continue(s, wc * 64 + s[j + 1] % 64, j + 1, k)
  {}

  lemma {:induction false} ContinuePrefix(s: seq<Byte>, t: seq<Byte>, wc: nat, j: nat, k: nat)
    requires j <= k && Continue(s, wc, j, k).Char?
    ensures Continue(s + t, wc, j, k) == Continue(s, wc, j, k)
    decreases k - j
  {
    if j < k { ContinuePrefix(s, t, wc * 64 + s[j + 1] % 64, j + 1, k); }
  }

  /** What follows a character does not matter. */
  lemma DecodePrefix(s: seq<Byte>, t: seq<Byte>)
    requires s != [] && Decode8(s).Char?
    ensures Decode8(s + t) == Decode8(s)
  {
    hide Extra, Continue;
    ContinuePrefix(s, t, s[0] % STEP[Extra(s[0])], 0, Extra(s[0]));
  }

  lemma {:induction false} ContinueTake(s: seq<Byte>, n: nat, wc: nat, j: nat, k: nat)
    requires j <= k < n <= |s| && Continue(s, wc, j, k).Char?
    ensures Continue(s[..n], wc, j, k) == Continue(s, wc, j, k)
    decreases k - j
  {
    if j < k { ContinueTake(s, n, wc * 64 + s[j + 1] % 64, j + 1, k); }
  }

  lemma DecodeTake(s: seq<Byte>, n: nat)
    requires s != [] && Decode8(s).Char? && Decode8(s).len <= n <= |s|
    ensures Decode8(s[..n]) == Decode8(s)
  {
    hide Extra, Continue;
    ContinueTake(s, n, s[0] % STEP[Extra(s[0])], 0, Extra(s[0]));
  }

  /** UTF-8 to wide character; the terminator behind s stops a truncated character. */
  method Utf8ToWchar(s: seq<Byte>, size: nat) returns (r: int, wc: nat)
    requires s != []
    ensures size == 0 ==> r == -ENAMETOOLONG
    ensures size > 0 && Extra(s[0]) < 4 && size < Extra(s[0]) + 1 ==> r == -ENAMETOOLONG
    ensures size > 0 && (Extra(s[0]) == 4 || size >= Extra(s[0]) + 1) ==>
              match Decode8(s)
              case Bad => r == -EILSEQ
              case Char(c, n) => r == n && wc == c
  {
    wc := 0;
    if size == 0 {
      return -ENAMETOOLONG, wc;
    }
    var k := 0;
    while k < 4
      invariant 0 <= k <= 4
      invariant forall i :: 0 <= i < k ==> !LeadIs(s[0], i)
    {
      if LeadIs(s[0], k) {
        LeadUnique(s[0], k);
        if size < k + 1 {
          return -ENAMETOOLONG, wc;
        }
        wc := s[0] % STEP[k];
        var j := 0;
        while j < k
          invariant 0 <= j <= k
          invariant Continue(s, wc, j, k) == Decode8(s)
        {
          if j + 1 >= |s| || s[j + 1] / 64 != 2 {
            return -EILSEQ, wc;
          }
          wc := wc * 64 + s[j + 1] % 64;
          j := j + 1;
        }
        return k + 1, wc;
      }
      k := k + 1;
    }
    return -EILSEQ, wc;
  }

  /** The canonical encoding of a code point. */
  function Encode8(cp: nat): (s: seq<Byte>)
    requires cp < 0x20_0000
    ensures 1 <= |s| <= 4
    ensures cp > 0 ==> 0 !in s
  {
    if cp < 0x80 then [cp]
    else if cp < 0x800 then [0xC0 + cp / 64, 0x80 + cp % 64]
    else if cp < 0x1_0000 then [0xE0 + cp / 4096, 0x80 + cp / 64 % 64, 0x80 + cp % 64]
    else [0xF0 + cp / 0x4_0000, 0x80 + cp / 4096 % 64, 0x80 + cp / 64 % 64, 0x80 + cp % 64]
  }

  lemma Sixes(x: nat)
    ensures x / 64 / 64 == x / 4096 && x / 4096 / 64 == x / 0x4_0000
  {}

  /** Wide character to UTF-8. */
  method WcharToUtf8(wc0: int, size: nat) returns (r: int, s: seq<Byte>)
    ensures wc0 < 0 || wc0 >= 0x20_0000 ==> r == -EINVAL
    ensures 0 <= wc0 < 0x20_0000 ==>
              if |Encode8(wc0)| <= size then r == |s| && s == Encode8(wc0) else r == -ENAMETOOLONG
  {
    s := [];
    var wc := wc0;
    if wc >= 0 {
      if wc < 0x80 {
        if size < 1 { return -ENAMETOOLONG, s; }
        return 1, [wc];
      }
      if wc < 0x800 {
        if size < 2 { return -ENAMETOOLONG, s; }
        s := [0x80 + wc % 64];
        wc := wc / 64;
        return 2, [0xC0 + wc] + s;
      }
      Sixes(wc);
      if wc < 0x1_0000 {
        if size < 3 { return -ENAMETOOLONG, s; }
        s := [0x80 + wc % 64];
        wc := wc / 64;
        s := [0x80 + wc % 64] + s;
        wc := wc / 64;
        return 3, [0xE0 + wc] + s;
      }
      if wc < 0x20_0000 {
        if size < 4 { return -ENAMETOOLONG, s; }
        s := [0x80 + wc % 64];
        wc := wc / 64;
        s := [0x80 + wc % 64] + s;
        wc := wc / 64;
        s := [0x80 + wc % 64] + s;
        wc := wc / 64;
        return 4, [0xF0 + wc] + s;
      }
    }
    return -EINVAL, s;
  }

  /** One continuation byte brings back six bits. */
  lemma ContinueStep(s: seq<Byte>, x: nat, j: nat, k: nat)
    requires j < k && j + 1 < |s| && s[j + 1] == 0x80 + x % 64
    ensures Continue(s, x / 64, j, k) == Continue(s, x, j + 1, k)
  {
    assert s[j + 1] / 64 == 2 && s[j + 1] % 64 == x % 64;
  }

  lemma LeadByte(cp: nat, rest: seq<Byte>)
    requires cp < 0x20_0000
    ensures var s, k := Encode8(cp) + rest, |Encode8(cp)| - 1;
            Extra(s[0]) == k && s[0] % STEP[k] == if k == 0 then cp else if k == 1 then cp / 64
                                                  else if k == 2 then cp / 4096 else cp / 0x4_0000
  {
  }

  /** Decoding undoes encoding, whatever follows the character. */
  lemma DecodeEncode8(cp: nat, rest: seq<Byte>)
    requires cp < 0x20_0000
    ensures Decode8(Encode8(cp) + rest) == Char(cp, |Encode8(cp)|)
  {
    var s, k := Encode8(cp) + rest, |Encode8(cp)| - 1;
    LeadByte(cp, rest);
    assert Continue(s, cp, k, k) == Char(cp, k + 1);
    if k >= 1 {
      assert s[k] == 0x80 + cp % 64;
      ContinueStep(s, cp, k - 1, k);
    }
    if k >= 2 {
      assert s[k - 1] == 0x80 + cp / 64 % 64;
      ContinueStep(s, cp / 64, k - 2, k);
      assert cp / 64 / 64 == cp / 4096;
    }
    if k >= 3 {
      assert s[k - 2] == 0x80 + cp / 4096 % 64;
      ContinueStep(s, cp / 4096, k - 3, k);
      assert cp / 4096 / 64 == cp / 0x4_0000;
    }
  }

  /** The encoding is the shortest: no fewer bytes decode to the same code point. */
  lemma EncodeShortest(s: seq<Byte>)
    requires s != [] && Decode8(s).Char?
    ensures Decode8(s).cp < 0x20_0000 && |Encode8(Decode8(s).cp)| <= Decode8(s).len
  {
    hide Continue;
    Decode8Value(s);
    Decode8BadIff(s);
  }

  // ---- UTF-16 ----

  predicate HighSurrogate(w: int) { w / 0x400 == 0x36 }
  predicate LowSurrogate(w: int) { w / 0x400 == 0x37 }

  /** The units the driver stores for a code point. */
  function Encode16(cp: nat): (s: seq<Word>)
    requires cp < 0x20_0000
    ensures 1 <= |s| <= 2
  {
    if cp < 0x1_0000 then [cp]
    else [(0xD800 + (cp / 0x1_0000 - 1) * 64 + cp % 0x1_0000 / 0x400 * 0x100) % 0x1_0000, 0xDC00 + cp % 0x400]
  }

  /** Wide character to UTF-16. */
  method WcharToUtf16(wc: int) returns (r: int, s: seq<Word>)
    ensures 0 <= wc < 0x20_0000 ==> r == |s| && s == Encode16(wc)
    ensures wc < 0 || wc >= 0x20_0000 ==> r == -EINVAL
  {
    if wc >= 0 {
      if wc < 0x1_0000 {
        return 1, [wc];
      }
      if wc < 0x20_0000 {
        var high := 0xD800 + (wc / 0x1_0000 - 1) * 64 + wc % 0x1_0000 / 0x400 * 0x100;
        return 2, [high % 0x1_0000, 0xDC00 + wc % 0x400];
      }
    }
    return -EINVAL, [];
  }

  /** The first character of w; behind w stands the terminator. */
  function Decode16(w: seq<Word>): (r: Decoded)
    requires w != []
    ensures r.Char? ==> 1 <= r.len <= 2 && r.len <= |w| && r.cp < 0x11_0000 && !HighSurrogate(r.cp)
    ensures r.Char? ==> (r.len == 2 <==> r.cp >= 0x1_0000) && (w[0] != 0 ==> r.cp != 0)
  {
    if !HighSurrogate(w[0]) then Char(w[0], 1)
    else if |w| == 1 || !LowSurrogate(w[1]) then Bad
    else
      var high: nat, low: nat := w[0] % 0x400, w[1] % 0x400;
      Char(high * 0x400 + 0x1_0000 + low, 2)
  }

  method Utf16ToWchar(w: seq<Word>, size: nat) returns (r: int, wc: nat)
    requires w != []
    ensures size == 0 ==> r == -ENAMETOOLONG
    ensures size == 1 && HighSurrogate(w[0]) ==> r == -ENAMETOOLONG
    ensures size >= 2 || (size == 1 && !HighSurrogate(w[0])) ==>
              match Decode16(w) case Bad => r == -EILSEQ case Char(c, n) => r == n && wc == c
  {
    wc := 0;
    if size == 0 {
      return -ENAMETOOLONG, wc;
    }
    var v: int := w[0];
    if v / 0x400 != 0x36 {
      return 1, v;
    }
    if size < 2 {
      return -ENAMETOOLONG, wc;
    }
    wc := v % 0x400 * 0x400 + 0x1_0000;
    v := if |w| > 1 then w[1] else 0;
    if v / 0x400 != 0x37 {
      return -EILSEQ, wc;
    }
    wc := wc + v % 0x400;
    return 2, wc;
  }

  /** The units that are no character: a high surrogate that no low one follows. */
  lemma Decode16BadIff(w: seq<Word>)
    requires w != []
    ensures Decode16(w) == Bad <==> 0xD800 <= w[0] < 0xDC00 && !(|w| > 1 && 0xDC00 <= w[1] < 0xE000)
  {}

  /** Reading follows the standard: the pair of section 2.1 of RFC 2781 is the code point it stands for. */
  lemma PairReads(cp: nat, rest: seq<Word>)
    requires 0x1_0000 <= cp < 0x11_0000
    ensures Decode16([0xD800 + (cp - 0x1_0000) / 0x400, 0xDC00 + (cp - 0x1_0000) % 0x400] + rest) == Char(cp, 2)
  {
    var x := cp - 0x1_0000;
    var high: Word, low: Word := 0xD800 + x / 0x400, 0xDC00 + x % 0x400;
    assert HighSurrogate(high) && high % 0x400 == x / 0x400;
    assert LowSurrogate(low) && low % 0x400 == x % 0x400;
  }

  lemma EncodeWide(cp: nat, hi: nat, mid: nat, lo: nat)
    requires 0x1_0000 <= cp < 0x20_0000
    requires hi == cp / 0x1_0000 - 1 && mid == cp % 0x1_0000 / 0x400 && lo == cp % 0x400
    ensures Encode16(cp) == [(0xD800 + hi * 64 + mid * 0x100) % 0x1_0000, 0xDC00 + lo]
    ensures hi < 31 && mid < 64 && lo < 0x400 && cp == 0x1_0000 + hi * 0x1_0000 + mid * 0x400 + lo
  {}

  lemma DecodeWide(u: Word, lo: nat)
    requires lo < 0x400
    ensures Decode16([u, 0xDC00 + lo]) ==
            if HighSurrogate(u) then Char(u % 0x400 * 0x400 + 0x1_0000 + lo, 2) else Char(u, 1)
  {
    var d: Word := 0xDC00 + lo;
    assert LowSurrogate(d) && d % 0x400 == lo;
  }

  lemma NotHigh(hi: nat, mid: nat, u: nat)
    requires hi < 31 && mid < 64 && u == (0xD800 + hi * 64 + mid * 0x100) % 0x1_0000 && !HighSurrogate(u)
    ensures hi >= 16 || mid > 0
  {}

  lemma SurrogateBits(hi: nat, mid: nat, u: nat)
    requires hi < 31 && mid < 64 && u == (0xD800 + hi * 64 + mid * 0x100) % 0x1_0000 && HighSurrogate(u)
    ensures hi * 64 + mid * 0x100 < 0x400 && u % 0x400 == hi * 64 + mid * 0x100
  {
    var x := hi * 64 + mid * 0x100;
    assert x < 0x8000;
  }

  /**
    A code point survives the UTF-16 form exactly when it is below 0x10000 and
    no high surrogate, or a code point of Unicode whose bits 10-15 are zero.
   */
  lemma Utf16CharIff(cp: nat)
    requires cp < 0x20_0000
    ensures Decode16(Encode16(cp)) == Char(cp, |Encode16(cp)|) <==>
            if cp < 0x1_0000 then !HighSurrogate(cp) else cp < 0x11_0000 && cp % 0x1_0000 / 0x400 == 0
  {
    if cp >= 0x1_0000 {
      hide Encode16, Decode16, HighSurrogate;
      var hi, mid, lo := cp / 0x1_0000 - 1, cp % 0x1_0000 / 0x400, cp % 0x400;
      var u: Word, d: Word := (0xD800 + hi * 64 + mid * 0x100) % 0x1_0000, 0xDC00 + lo;
      EncodeWide(cp, hi, mid, lo);
      DecodeWide(u, lo);
      if HighSurrogate(u) { SurrogateBits(hi, mid, u); } else { NotHigh(hi, mid, u); }
    }
  }
}
