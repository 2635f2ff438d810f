/**
  Whole file names: the conversions utf8to16 and utf16to8 of the FAT driver and
  the length utf8_strlen, against the list of code points a name spells.
 */
module Strings {
  import opened FatEntry
  import opened Unicode
  import opened Wrappers

  /** Code points a name can be made of: anything UTF-8 can spell except the terminator. */
  ghost predicate Spellable(cps: seq<nat>) {
    forall i :: 0 <= i < |cps| ==> 0 < cps[i] < 0x20_0000
  }

  ghost function Name8(cps: seq<nat>): (s: seq<Byte>)
    requires Spellable(cps)
    ensures 0 !in s && |s| >= |cps|
  {
    if cps == [] then [] else Encode8(cps[0]) + Name8(cps[1..])
  }

  ghost function Units(cps: seq<nat>): (w: seq<Word>)
    requires Spellable(cps)
    ensures |w| >= |cps|
  {
    if cps == [] then [] else Encode16(cps[0]) + Units(cps[1..])
  }

  // What is still to come goes behind what has been converted.
  function After<T>(done: seq<T>, rest: Option<seq<T>>): Option<seq<T>> {
    match rest case None => None case Some(r) => Some(done + r)
  }

  /** The result of utf8to16: None when a character cannot be converted. */
  function To16(s: seq<Byte>): Option<seq<Word>> {
    if s == [] then Some([]) else
      match Decode8(s)
      case Bad => None
      case Char(cp, n) =>
        if cp >= 0x20_0000 then None else After(Encode16(cp), To16(s[n..]))
  }

  /** The code points that a terminated string of units spells. */
  ghost function Spelled16(w: seq<Word>): Option<seq<nat>> {
    if w == [] || w[0] == 0 then Some([]) else
      match Decode16(w)
      case Bad => None
      case Char(cp, n) => After([cp], Spelled16(w[n..]))
  }

  /** The result of utf16to8. */
  function To8(w: seq<Word>): Option<seq<Byte>> {
    if w == [] || w[0] == 0 then Some([]) else
      match Decode16(w)
      case Bad => None
      case Char(cp, n) => After(Encode8(cp), To8(w[n..]))
  }

  lemma AfterNothing<T>(rest: Option<seq<T>>)
    ensures After([], rest) == rest
  {
    if rest.Some? { assert [] + rest.value == rest.value; }
  }

  lemma AfterMore<T>(done: seq<T>, more: seq<T>, rest: Option<seq<T>>)
    ensures After(done, After(more, rest)) == After(done + more, rest)
  {
    if rest.Some? { assert done + (more + rest.value) == done + more + rest.value; }
  }

  method Utf8To16(source: seq<Byte>) returns (r: int, dest: seq<Word>)
    ensures match To16(source) case None => r == -1 case Some(w) => r == 0 && dest == w
  {
    hide Decode8, Encode16;
    dest := [];
    var pos := 0;
    assert source[0..] == source;
    AfterNothing(To16(source));
    while pos < |source|
      invariant pos <= |source|
      invariant To16(source) == After(dest, To16(source[pos..]))
    {
      var n, wc := Utf8ToWchar(source[pos..], 6);
      if n < 0 {
        return -1, dest;
      }
      var m, units := WcharToUtf16(wc);
      if m < 0 {
        return -1, dest;
      }
      assert source[pos..][n..] == source[pos + n..];
      AfterMore(dest, units, To16(source[pos + n..]));
      pos := pos + n;
      dest := dest + units;
    }
    return 0, dest;
  }

  method Utf16To8(source: seq<Word>) returns (r: int, dest: seq<Byte>)
    ensures match To8(source) case None => r < 0 case Some(s) => r == 0 && dest == s
  {
    hide Decode16, Encode8;
    dest := [];
    var pos := 0;
    assert source[0..] == source;
    AfterNothing(To8(source));
    while pos < |source| && source[pos] != 0
      invariant pos <= |source|
      invariant To8(source) == After(dest, To8(source[pos..]))
    {
      var n, wc := Utf16ToWchar(source[pos..], 2);
      if n < 0 {
        return n, dest;
      }
      var m, bytes := WcharToUtf8(wc, 6);
      assert source[pos..][n..] == source[pos + n..];
      AfterMore(dest, bytes, To8(source[pos + n..]));
      pos := pos + n;
      dest := dest + bytes;
    }
    return 0, dest;
  }

  /** Position k is behind a part that converts, and in front of a byte that starts no character. */
  ghost predicate FailsAt(s: seq<Byte>, k: nat) {
    k < |s| && To16(s[..k]).Some? && Decode8(s[k..]) == Bad
  }

  lemma FailsLater(s: seq<Byte>, n: nat, j: nat)
    requires s != [] && Decode8(s).Char? && Decode8(s).cp < 0x20_0000
    requires n == Decode8(s).len <= |s| && FailsAt(s[n..], j)
    ensures FailsAt(s, n + j)
  {
    hide Decode8, Encode16;
    DecodeTake(s, n + j);
    assert s[..n + j][n..] == s[n..][..j] && s[n..][j..] == s[n + j..];
  }

  lemma FailsSooner(s: seq<Byte>, n: nat, k: nat)
    requires s != [] && Decode8(s).Char? && n == Decode8(s).len <= |s| && FailsAt(s, k)
    ensures k >= n && FailsAt(s[n..], k - n)
  {
    hide Decode8, Encode16;
    var p := s[..k];
    assert p + s[k..] == s;
    if p != [] {
      DecodePrefix(p, s[k..]);
      assert p[n..] == s[n..][..k - n] && s[n..][k - n..] == s[k..];
    }
  }

  /** A string fails to convert exactly when it has such a position. */
  lemma {:induction false} To16FailsIff(s: seq<Byte>)
    ensures To16(s) == None <==> exists k :: FailsAt(s, k)
  {
    hide Decode8, Encode16;
    if s == [] {
    } else if Decode8(s) == Bad {
      assert s[..0] == [] && s[0..] == s;
      assert FailsAt(s, 0);
    } else {
      EncodeShortest(s);
      var n := Decode8(s).len;
      To16FailsIff(s[n..]);
      if j :| FailsAt(s[n..], j) { FailsLater(s, n, j); }
      if k :| FailsAt(s, k) { FailsSooner(s, n, k); }
    }
  }

  /** Position k is behind units that convert, none of them the terminator, and in front of half a surrogate pair. */
  ghost predicate BreaksAt(w: seq<Word>, k: nat) {
    k < |w| && 0 !in w[..k] && To8(w[..k]).Some? && Decode16(w[k..]) == Bad
  }

  lemma StopsFirst(w: seq<Word>, k: nat)
    requires w != [] && w[0] == 0
    ensures !BreaksAt(w, k)
  {
    if 0 < k < |w| { assert w[..k][0] == 0; }
  }

  lemma BreaksLater(w: seq<Word>, n: nat, j: nat)
    requires w != [] && w[0] != 0 && Decode16(w).Char? && n == Decode16(w).len <= |w| && BreaksAt(w[n..], j)
    ensures BreaksAt(w, n + j)
  {
    hide Encode8;
    var p := w[..n + j];
    assert p[n..] == w[n..][..j] && w[n..][j..] == w[n + j..];
    assert p == w[..n] + w[n..][..j];
    assert n == 2 ==> w[1] != 0;
  }

  lemma BreaksSooner(w: seq<Word>, n: nat, k: nat)
    requires w != [] && Decode16(w).Char? && n == Decode16(w).len <= |w| && BreaksAt(w, k)
    ensures k >= n && BreaksAt(w[n..], k - n)
  {
    hide Encode8;
    var p := w[..k];
    assert k >= n ==> p[n..] == w[n..][..k - n] && w[n..][k - n..] == w[k..];
  }

  /** Units fail to convert back exactly when they have such a position. */
  lemma {:induction false} To8FailsIff(w: seq<Word>)
    ensures To8(w) == None <==> exists k :: BreaksAt(w, k)
  {
    hide Decode16, Encode8;
    if w == [] {
    } else if w[0] == 0 {
      if k :| BreaksAt(w, k) { StopsFirst(w, k); }
    } else if Decode16(w) == Bad {
      assert w[..0] == [] && w[0..] == w;
      assert BreaksAt(w, 0);
    } else {
      var n := Decode16(w).len;
      To8FailsIff(w[n..]);
      if j :| BreaksAt(w[n..], j) { BreaksLater(w, n, j); }
      if k :| BreaksAt(w, k) { BreaksSooner(w, n, k); }
    }
  }

  // ---- Length in characters ----

  /** Where utf8_strlen goes from cur: over the character there, or EILSEQ bytes back when it is no lead byte. */
  function Hop(s: seq<Byte>, cur: nat): int
    requires cur < |s|
  {
    if Extra(s[cur]) < 4 then cur + Extra(s[cur]) + 1 else cur - EILSEQ
  }

  /** Its cursor after n hops; it stays where it is once it is on the terminator or outside the string. */
  function Cursor(s: seq<Byte>, n: nat): int {
    if n == 0 then 0 else
      var cur := Cursor(s, n - 1);
      if 0 <= cur < |s| then Hop(s, cur) else cur
  }

  /** It stops on the terminator with a count, reads outside the string after some hops, or never stops. */
  datatype Walk = Ends(count: nat) | Leaves(hops: nat, cur: int) | Circles

  ghost predicate Within(s: seq<Byte>, n: nat) {
    forall k :: 0 <= k < n ==> 0 <= Cursor(s, k) < |s|
  }

  ghost predicate Follows(s: seq<Byte>, w: Walk) {
    match w
    case Ends(n) => Within(s, n) && Cursor(s, n) == |s|
    case Leaves(n, cur) => Within(s, n) && Cursor(s, n) == cur && !(0 <= cur <= |s|)
    case Circles => forall n: nat :: 0 <= Cursor(s, n) < |s|
  }

  /** From two times at the same place the cursor goes the same way. */
  lemma {:induction false} CursorRepeats(s: seq<Byte>, i: nat, j: nat, d: nat)
    requires Cursor(s, i) == Cursor(s, j)
    ensures Cursor(s, i + d) == Cursor(s, j + d)
  {
    if d > 0 {
      CursorRepeats(s, i, j, d - 1);
      assert Cursor(s, i + (d - 1)) == Cursor(s, j + (d - 1));
    }
  }

  /** Among more than n numbers below n two are equal. */
  lemma {:induction false} Pigeonhole(p: seq<int>, n: nat) returns (i: nat, j: nat)
    requires |p| > n && forall k :: 0 <= k < |p| ==> 0 <= p[k] < n
    ensures i < j < |p| && p[i] == p[j]
    decreases n
  {
    if a :| 0 <= a < |p| && p[a] == n - 1 {
      if b :| 0 <= b < |p| && b != a && p[b] == n - 1 {
        i, j := if a < b then a else b, if a < b then b else a;
      } else {
        i, j := Pigeonhole(p[..a] + p[a + 1..], n - 1);
        i, j := if i < a then i else i + 1, if j < a then j else j + 1;
      }
    } else {
      assert 0 <= p[0] < n;
      i, j := Pigeonhole(p, n - 1);
    }
  }

  /** A cursor that is inside after a hop for every byte has been somewhere twice. */
  lemma Twice(s: seq<Byte>) returns (i: nat, j: nat)
    requires Within(s, |s| + 1)
    ensures i < j <= |s| && Cursor(s, i) == Cursor(s, j)
  {
    hide Cursor;
    var p := seq(|s| + 1, k requires k >= 0 => Cursor(s, k));
    i, j := Pigeonhole(p, |s|);
    assert p[i] == p[j];
  }

  /** ...and so goes on for ever. */
  lemma {:induction false} NeverStops(s: seq<Byte>, i: nat, j: nat, n: nat)
    requires Within(s, j) && i < j && Cursor(s, i) == Cursor(s, j)
    ensures 0 <= Cursor(s, n) < |s|
  {
    hide Cursor;
    if n >= j {
      CursorRepeats(s, i, j, n - j);
      NeverStops(s, i, j, n - j + i);
    }
  }

  /**
    Counts the characters of a string.  The loop of the driver has no bound;
    here it is left once the cursor has made a hop for every byte, for then it
    never stops.
   */
  method Utf8Strlen(s: seq<Byte>) returns (r: Walk)
    ensures Follows(s, r)
  {
    hide Extra;
    var i, cur := 0, 0;
    while 0 <= cur < |s| && i < |s|
      invariant 0 <= i <= |s| && cur == Cursor(s, i) && Within(s, i)
    {
      var n := Utf8Len(s[cur]);
      cur := cur + n;
      i := i + 1;
    }
    if cur == |s| {
      return Ends(i);
    }
    if !(0 <= cur <= |s|) {
      return Leaves(i, cur);
    }
    var a, b := Twice(s);
    forall n: nat ensures 0 <= Cursor(s, n) < |s| {
      NeverStops(s, a, b, n);
    }
    return Circles;
  }

  /** There is one way to go. */
  lemma OneWalk(s: seq<Byte>, v: Walk, w: Walk)
    requires Follows(s, v) && Follows(s, w)
    ensures v == w
  {
    hide Cursor;
  }

  /**
    The number of characters from cur on in one pass: None when a byte is no
    lead byte or the last character is cut short.
   */
  function Hops(s: seq<Byte>, cur: nat): Option<nat>
    decreases |s| - cur
  {
    if cur == |s| then Some(0)
    else if cur > |s| || Extra(s[cur]) == 4 then None
    else
      var rest := Hops(s, cur + Extra(s[cur]) + 1);
      if rest.None? then None else Some(rest.value + 1)
  }

  /** The first n hops go over characters. */
  ghost predicate Forward(s: seq<Byte>, n: nat) {
    forall k :: 0 <= k < n ==> 0 <= Cursor(s, k) < |s| && Extra(s[Cursor(s, k)]) < 4
  }

  lemma {:induction false} PassFrom(s: seq<Byte>, k: nat, n: nat)
    requires k <= n && Forward(s, k) && Cursor(s, k) >= 0
    ensures Hops(s, Cursor(s, k)) == Some(n - k) <==> Forward(s, n) && Cursor(s, n) == |s|
    decreases n - k
  {
    hide Extra;
    var cur := Cursor(s, k);
    if k < n && cur < |s| && Extra(s[cur]) < 4 {
      assert Forward(s, k + 1);
      PassFrom(s, k + 1, n);
    } else if k < n {
      assert !Forward(s, n);
    }
  }

  /** The count comes from one pass exactly when that meets no bad byte and no character that is cut short. */
  lemma OnePass(s: seq<Byte>, n: nat)
    ensures Hops(s, 0) == Some(n) <==> Forward(s, n) && Follows(s, Ends(n))
  {
    PassFrom(s, 0, n);
  }

  /** A byte that is no lead byte, met below position EILSEQ, takes the cursor in front of the string. */
  lemma BadByte(s: seq<Byte>, n: nat)
    requires Within(s, n + 1) && Cursor(s, n) < EILSEQ && Extra(s[Cursor(s, n)]) == 4
    ensures Follows(s, Leaves(n + 1, Cursor(s, n) - EILSEQ))
  {}

  /** So a string of up to EILSEQ bytes has a count exactly when one pass finds it. */
  lemma ShortString(s: seq<Byte>, n: nat)
    requires |s| <= EILSEQ
    ensures Follows(s, Ends(n)) <==> Hops(s, 0) == Some(n)
  {
    hide Cursor, Hops;
    OnePass(s, n);
    if Follows(s, Ends(n)) {
      forall k | 0 <= k < n ensures Extra(s[Cursor(s, k)]) < 4 {
        if Extra(s[Cursor(s, k)]) == 4 {
          BadByte(s, k);
          OneWalk(s, Ends(n), Leaves(k + 1, Cursor(s, k) - EILSEQ));
        }
      }
    }
  }

  /** Where the cursor goes in the string below. */
  function Wander(k: nat): int {
    if k == 0 then 0 else if k <= 42 then 2 * k + 1 else if k == 43 then 86 else if k < 86 then 2 * k - 86 else 87
  }

  function Wandering(): (s: seq<Byte>)
    ensures |s| == 87
  {
    seq(87, i => if i == 0 || i == 84 then 0xE1 else if i == 85 then 0x61 else if i == 86 then 0x80 else 0xC2)
  }

  lemma {:induction false} WanderAt(k: nat)
    requires k <= 86
    ensures Cursor(Wandering(), k) == Wander(k)
  {
    if k > 0 { WanderAt(k - 1); }
  }

  /** A longer one can have a bad byte and still be counted: the cursor comes back and ends on the terminator. */
  lemma WanderingEnds()
    ensures Follows(Wandering(), Ends(86)) && Hops(Wandering(), 0) == None
  {
    hide Cursor, Hops;
    forall k: nat | k <= 86 ensures Cursor(Wandering(), k) == Wander(k) { WanderAt(k); }
    assert Cursor(Wandering(), 43) == 86 && !Forward(Wandering(), 86);
    if Hops(Wandering(), 0).Some? {
      OnePass(Wandering(), Hops(Wandering(), 0).value);
    }
  }

  function Circling(): (s: seq<Byte>)
    ensures |s| == 85
  {
    seq(85, i => if i == 84 then 0x80 else 0x61)
  }

  lemma CircleHop(r: nat)
    requires r < 85
    ensures Hop(Circling(), r) == if r == 84 then 0 else r + 1
  {}

  lemma {:induction false} CircleAt(k: nat)
    ensures 0 <= Cursor(Circling(), k) < 85
  {
    hide Circling, Hop;
    if k > 0 {
      CircleAt(k - 1);
      CircleHop(Cursor(Circling(), k - 1));
    }
  }

  /** Or not be counted at all: the cursor goes round for ever. */
  lemma CirclingCircles()
    ensures Follows(Circling(), Circles)
  {
    hide Cursor;
    forall k: nat ensures 0 <= Cursor(Circling(), k) < 85 { CircleAt(k); }
  }

  /** A well-formed name has as many hops as characters. */
  lemma {:induction false} HopsName(cps: seq<nat>)
    requires Spellable(cps)
    ensures Hops(Name8(cps), 0) == Some(|cps|)
  {
    assert cps[0..] == cps;
    HopsFrom(Name8(cps), 0, cps, 0);
  }

  /** ...and that is what is counted. */
  lemma NameCounted(cps: seq<nat>, w: Walk)
    requires Spellable(cps) && Follows(Name8(cps), w)
    ensures w == Ends(|cps|)
  {
    hide Cursor, Hops, Name8;
    HopsName(cps);
    OnePass(Name8(cps), |cps|);
    OneWalk(Name8(cps), w, Ends(|cps|));
  }

  lemma {:induction false} HopsFrom(s: seq<Byte>, cur: nat, cps: seq<nat>, i: nat)
    requires Spellable(cps) && i <= |cps| && cur <= |s| && s[cur..] == Name8(cps[i..])
    ensures Hops(s, cur) == Some(|cps| - i)
    decreases |cps| - i
  {
    hide Extra, Name8;
    if cur < |s| {
      NextChar(s, cur, cps, i);
      HopsFrom(s, cur + Extra(s[cur]) + 1, cps, i + 1);
    }
  }

  /** The next character of a name and where the one after it starts. */
  lemma NextChar(s: seq<Byte>, cur: nat, cps: seq<nat>, i: nat)
    requires Spellable(cps) && i <= |cps| && cur < |s| && s[cur..] == Name8(cps[i..])
    ensures i < |cps| && Extra(s[cur]) < 4
    ensures cur + Extra(s[cur]) + 1 <= |s| && s[cur + Extra(s[cur]) + 1..] == Name8(cps[i + 1..])
  {
    var rest := s[cur..];
    assert cps[i..][1..] == cps[i + 1..];
    LeadByte(cps[i], Name8(cps[i + 1..]));
    var n := Extra(s[cur]) + 1;
    assert rest[n..] == Name8(cps[i + 1..]);
    assert rest[n..] == s[cur + n..];
  }

  lemma {:induction false} To16Name(cps: seq<nat>)
    requires Spellable(cps)
    ensures To16(Name8(cps)) == Some(Units(cps))
  {
    if cps != [] {
      var rest := Name8(cps[1..]);
      DecodeEncode8(cps[0], rest);
      assert (Encode8(cps[0]) + rest)[|Encode8(cps[0])|..] == rest;
      To16Name(cps[1..]);
    }
  }

  /** Two names are equal only when they spell the same code points. */
  lemma {:induction false} NameInjective(a: seq<nat>, b: seq<nat>)
    requires Spellable(a) && Spellable(b) && Name8(a) == Name8(b)
    ensures a == b
    decreases |a|
  {
    if a != [] && b != [] {
      var ra, rb := Name8(a[1..]), Name8(b[1..]);
      DecodeEncode8(a[0], ra);
      DecodeEncode8(b[0], rb);
      assert Name8(a)[|Encode8(a[0])|..] == ra;
      assert Name8(b)[|Encode8(b[0])|..] == rb;
      NameInjective(a[1..], b[1..]);
      assert a == [a[0]] + a[1..] && b == [b[0]] + b[1..];
    }
  }

  /** The number of code points that need two units. */
  ghost function Wide(cps: seq<nat>): nat {
    if cps == [] then 0 else (if cps[0] >= 0x1_0000 then 1 else 0) + Wide(cps[1..])
  }

  /** A wide character takes two units, another one. */
  lemma {:induction false} UnitsCount(cps: seq<nat>)
    requires Spellable(cps)
    ensures |Units(cps)| == |cps| + Wide(cps)
  {
    if cps != [] { UnitsCount(cps[1..]); }
  }

  /** Code points that one unit stores and gives back. */
  ghost predicate Narrow(cps: seq<nat>) {
    forall i :: 0 <= i < |cps| ==> 0 < cps[i] < 0x1_0000 && !HighSurrogate(cps[i])
  }

  lemma {:induction false} NotWide(cps: seq<nat>)
    requires Wide(cps) == 0
    ensures forall i :: 0 <= i < |cps| ==> cps[i] < 0x1_0000
  {
    if cps != [] {
      NotWide(cps[1..]);
      assert forall i :: 0 < i < |cps| ==> cps[i] == cps[1..][i - 1];
    }
  }

  /** A string of units spells no high surrogate and no more characters than units, wide ones counting twice. */
  lemma {:induction false} Spelled16Shape(w: seq<Word>)
    ensures var s := Spelled16(w);
            match s case None => To8(w) == None
            case Some(cps) =>
              && Spellable(cps) && To8(w) == Some(Name8(cps))
              && |cps| + Wide(cps) <= |w|
              && forall i :: 0 <= i < |cps| ==> !HighSurrogate(cps[i])
    decreases |w|
  {
    if w != [] && w[0] != 0 {
      var d := Decode16(w);
      if d.Char? {
        Spelled16Shape(w[d.len..]);
        var rest := Spelled16(w[d.len..]);
        if rest.Some? {
          assert ([d.cp] + rest.value)[1..] == rest.value;
        }
      }
    }
  }

  lemma {:induction false} NarrowUnits(cps: seq<nat>)
    requires Narrow(cps)
    ensures Spellable(cps) && Units(cps) == cps && Spelled16(Units(cps)) == Some(cps)
  {
    if cps != [] {
      NarrowUnits(cps[1..]);
      assert Spellable(cps);
      var w := Units(cps);
      assert w == [cps[0]] + Units(cps[1..]);
      assert w[1..] == Units(cps[1..]);
      assert cps == [cps[0]] + cps[1..];
    }
  }
}
