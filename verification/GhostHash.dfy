/**
  The table of ghost mounts: paths kept as (length, hash) pairs, sorted by
  length and stored as length differences in 64 slots, so that one pass over a
  path tells whether some stored path is a prefix of it.
 */
module GhostHashSpec {
  const GH_SIZE := 64
  const TERMINATE := 255
  const DUMMY := 254
  const NOHASH: bv32 := 0xFFFFFFFF

  type Path = seq<bv8>

  type Byte = x: nat | x < 256

  datatype Slot = Slot(delta: Byte, hash: bv32)
  datatype Entry = Entry(len: nat, hash: bv32)

  /** Arithmetic shift right by two places. */
  function ShiftRight2(h: bv32): bv32 {
    (h >> 2) | (if h & 0x8000_0000 != 0 then 0xC000_0000 else 0)
  }

  /** A signed char as an integer. */
  function Extend(c: bv8): bv32 {
    if c & 0x80 != 0 then c as bv32 | 0xFFFF_FF00 else c as bv32
  }

  function HashAdd(h: bv32, c: bv8): bv32 {
    h ^ ((h << 5) + ShiftRight2(h) + Extend(c))
  }

  function HashSum(h: bv32, s: Path): bv32 {
    if s == [] then h else HashAdd(HashSum(h, s[..|s| - 1]), s[|s| - 1])
  }

  /** The hash of a path can be computed piece by piece. */
  lemma {:induction false} HashConcat(h: bv32, s: Path, t: Path)
    ensures HashSum(h, s + t) == HashSum(HashSum(h, s), t)
  {
    hide HashAdd;
    if t == [] {
      assert s + t == s;
    } else {
      assert (s + t)[..|s + t| - 1] == s + t[..|t| - 1];
      HashConcat(h, s, t[..|t| - 1]);
    }
  }

  function Key(p: Path): Entry {
    Entry(|p|, HashSum(0, p))
  }

  // ---- Slots and entries ----

  /** The entries that slots stand for, after scan bytes: dummy slots only add to the length. */
  function Decode(slots: seq<Slot>, scan: nat): seq<Entry> {
    if slots == [] || slots[0].delta == TERMINATE then []
    else if slots[0].delta == DUMMY then Decode(slots[1..], scan + DUMMY)
    else [Entry(scan + slots[0].delta, slots[0].hash)] + Decode(slots[1..], scan + slots[0].delta)
  }

  /** The entries have lengths in order, none below scan. */
  ghost predicate SortedFrom(es: seq<Entry>, scan: nat) {
    es == [] || (scan <= es[0].len && SortedFrom(es[1..], es[0].len))
  }

  /** The slots of a sorted list. */
  function Encode(es: seq<Entry>, scan: nat): seq<Slot>
    requires SortedFrom(es, scan)
    decreases |es|, if es == [] then 0 else es[0].len - scan
  {
    if es == [] then []
    else if es[0].len - scan >= DUMMY then [Slot(DUMMY, NOHASH)] + Encode(es, scan + DUMMY)
    else [Slot(es[0].len - scan, es[0].hash)] + Encode(es[1..], es[0].len)
  }

  /** The number of slots a sorted list needs. */
  function Need(es: seq<Entry>, scan: nat): nat
    requires SortedFrom(es, scan)
  {
    if es == [] then 0 else (es[0].len - scan) / DUMMY + 1 + Need(es[1..], es[0].len)
  }

  lemma {:induction false} NeedExact(es: seq<Entry>, scan: nat)
    requires SortedFrom(es, scan)
    ensures |Encode(es, scan)| == Need(es, scan)
    decreases |es|, if es == [] then 0 else es[0].len - scan
  {
    if es != [] {
      if es[0].len - scan >= DUMMY {
        NeedExact(es, scan + DUMMY);
        assert (es[0].len - scan) / DUMMY == (es[0].len - (scan + DUMMY)) / DUMMY + 1;
      } else {
        NeedExact(es[1..], es[0].len);
      }
    }
  }

  /** Decoding undoes encoding, whatever the gaps and whatever follows the terminator. */
  lemma {:induction false} DecodeEncode(es: seq<Entry>, scan: nat, rest: seq<Slot>)
    requires SortedFrom(es, scan) && (rest == [] || rest[0].delta == TERMINATE)
    ensures Decode(Encode(es, scan) + rest, scan) == es
    decreases |es|, if es == [] then 0 else es[0].len - scan
  {
    var slots := Encode(es, scan) + rest;
    if es == [] {
      assert slots == rest;
    } else if es[0].len - scan >= DUMMY {
      DecodeEncode(es, scan + DUMMY, rest);
      AfterFirst(Slot(DUMMY, NOHASH), Encode(es, scan + DUMMY), rest);
    } else {
      DecodeEncode(es[1..], es[0].len, rest);
      AfterFirst(Slot(es[0].len - scan, es[0].hash), Encode(es[1..], es[0].len), rest);
    }
  }

  lemma AfterFirst(s: Slot, body: seq<Slot>, rest: seq<Slot>)
    ensures ([s] + body + rest)[0] == s && ([s] + body + rest)[1..] == body + rest
  {}

  lemma {:induction false} SortedWeaken(es: seq<Entry>, scan: nat, lower: nat)
    requires SortedFrom(es, scan) && lower <= scan
    ensures SortedFrom(es, lower)
  {}

  /** Any table stands for a sorted list, which fits in no more slots than it came from. */
  lemma {:induction false} DecodeFits(slots: seq<Slot>, scan: nat)
    ensures SortedFrom(Decode(slots, scan), scan)
    ensures Need(Decode(slots, scan), scan) <= |slots|
  {
    if slots != [] && slots[0].delta != TERMINATE {
      var d := slots[0].delta;
      DecodeFits(slots[1..], scan + d);
      if d == DUMMY {
        var es := Decode(slots[1..], scan + d);
        if es != [] { GapStep(es[0].len - (scan + d)); }
      }
    }
  }

  lemma GapStep(n: nat)
    ensures (n + DUMMY) / DUMMY == n / DUMMY + 1
  {}

  // ---- Adding and removing an entry ----

  /** Where a new entry goes: before the first one that is not shorter. */
  function Position(es: seq<Entry>, len: nat): (pos: nat)
    ensures pos <= |es|
  {
    if es == [] || es[0].len >= len then 0 else 1 + Position(es[1..], len)
  }

  function InsertAt(es: seq<Entry>, pos: nat, e: Entry): (r: seq<Entry>)
    requires pos <= |es|
    ensures |r| == |es| + 1
  {
    es[..pos] + [e] + es[pos..]
  }

  function Insert(es: seq<Entry>, e: Entry): seq<Entry> {
    InsertAt(es, Position(es, e.len), e)
  }

  lemma InsertAdds(es: seq<Entry>, e: Entry)
    ensures multiset(Insert(es, e)) == multiset(es) + multiset{e}
  {
    var pos := Position(es, e.len);
    assert es == es[..pos] + es[pos..];
  }

  lemma {:induction false} InsertSorted(es: seq<Entry>, e: Entry, scan: nat)
    requires SortedFrom(es, scan) && scan <= e.len
    ensures SortedFrom(Insert(es, e), scan)
  {
    var r := Insert(es, e);
    if Position(es, e.len) == 0 {
      assert r == [e] + es;
      assert r[1..] == es;
    } else {
      InsertSorted(es[1..], e, es[0].len);
      InsertRest(es, Position(es, e.len), e);
    }
  }

  lemma InsertRest(es: seq<Entry>, pos: nat, e: Entry)
    requires 0 < pos <= |es|
    ensures InsertAt(es, pos, e)[0] == es[0] && InsertAt(es, pos, e)[1..] == InsertAt(es[1..], pos - 1, e)
  {
    assert es[..pos] == [es[0]] + es[1..][..pos - 1];
    assert es[pos..] == es[1..][pos - 1..];
  }

  /** Where a search for a removal stops: at an equal hash or at a greater length. */
  function Stop(es: seq<Entry>, e: Entry): (pos: nat)
    ensures pos <= |es|
  {
    if es == [] || es[0].len > e.len || es[0].hash == e.hash then 0 else 1 + Stop(es[1..], e)
  }

  predicate Found(es: seq<Entry>, e: Entry) {
    Stop(es, e) < |es| && es[Stop(es, e)] == e
  }

  function Remove(es: seq<Entry>, pos: nat): seq<Entry>
    requires pos < |es|
  {
    es[..pos] + es[pos + 1..]
  }

  lemma RemoveTakes(es: seq<Entry>, pos: nat)
    requires pos < |es|
    ensures multiset(Remove(es, pos)) == multiset(es) - multiset{es[pos]}
  {
    assert es == es[..pos] + [es[pos]] + es[pos + 1..];
  }

  lemma RemoveRest(es: seq<Entry>, pos: nat)
    requires 0 < pos < |es|
    ensures Remove(es, pos)[0] == es[0] && Remove(es, pos)[1..] == Remove(es[1..], pos - 1)
  {
    assert es[..pos] == [es[0]] + es[1..][..pos - 1];
    assert es[pos + 1..] == es[1..][pos..];
  }

  /** A shorter list needs no more slots: removal never fails for lack of room. */
  lemma {:induction false} RemoveSorted(es: seq<Entry>, pos: nat, scan: nat)
    requires SortedFrom(es, scan) && pos < |es|
    ensures SortedFrom(Remove(es, pos), scan)
    ensures Need(Remove(es, pos), scan) <= Need(es, scan)
  {
    if pos == 0 {
      assert Remove(es, 0) == es[1..];
      SortedWeaken(es[1..], es[0].len, scan);
      if |es| > 1 { GapSum(es[0].len - scan, es[1].len - es[0].len); }
    } else {
      RemoveSorted(es[1..], pos - 1, es[0].len);
      RemoveRest(es, pos);
    }
  }

  /** One gap over two needs no more slots than the two. */
  lemma GapSum(a: nat, b: nat)
    ensures (a + b) / DUMMY + 1 <= a / DUMMY + 1 + b / DUMMY + 1
  {}

  /**
    A removal finds its entry exactly when the entry is stored and no shorter
    stored entry has the same hash.
   */
  lemma {:induction false} FoundIff(es: seq<Entry>, e: Entry, scan: nat)
    requires SortedFrom(es, scan)
    ensures Found(es, e) <==> e in es && forall x :: x in es && x.len < e.len ==> x.hash != e.hash
  {
    if es != [] {
      var rest := es[1..];
      assert es == [es[0]] + rest;
      FoundIff(rest, e, es[0].len);
      if es[0].len > e.len {
        AllAtLeast(rest, es[0].len);
      } else if es[0].hash != e.hash {
        assert Found(es, e) == Found(rest, e);
      } else if es[0].len == e.len {
        AllAtLeast(rest, es[0].len);
      }
    }
  }

  lemma {:induction false} AllAtLeast(es: seq<Entry>, scan: nat)
    requires SortedFrom(es, scan)
    ensures forall x :: x in es ==> x.len >= scan
  {
    if es != [] {
      AllAtLeast(es[1..], es[0].len);
      assert es == [es[0]] + es[1..];
    }
  }

  // ---- Matching ----

  /** rest is what the module returns: the bytes of the path after the match, as an unsigned short. */
  datatype Match = Hit(rest: nat) | NoEntry | Overread

  const USHORT := 65536

  /**
    Scans a path of length len for a stored prefix; mem is the readable memory
    that starts with the path.  Slots longer than the path read on after it.
   */
  function MatchFrom(slots: seq<Slot>, mem: Path, scan: nat, len: nat): Match {
    if slots == [] || slots[0].delta == TERMINATE then NoEntry else
      var s := scan + slots[0].delta;
      if s > |mem| then Overread
      else if HashSum(0, mem[..s]) == slots[0].hash then Hit((len - s) % USHORT)
      else MatchFrom(slots[1..], mem, s, len)
  }

  /** A path whose entry is in the table is found in every longer path, unless a shorter match comes first. */
  lemma {:induction false} NoFalseNegative(slots: seq<Slot>, mem: Path, scan: nat, len: nat, p: Path)
    requires Key(p) in Decode(slots, scan) && scan <= |p| && p <= mem && |p| <= len < USHORT
    ensures MatchFrom(slots, mem, scan, len).Hit?
    ensures len - |p| <= MatchFrom(slots, mem, scan, len).rest <= len - scan
  {
    hide HashSum;
    var s, rest := scan + slots[0].delta, slots[1..];
    assert mem[..|p|] == p;
    if slots[0].delta != DUMMY && Key(p) == Entry(s, slots[0].hash) {
      assert s == |p|;
    } else {
      assert Key(p) in Decode(rest, s);
      DecodeFits(rest, s);
      AllAtLeast(Decode(rest, s), s);
      if HashSum(0, mem[..s]) != slots[0].hash {
        NoFalseNegative(rest, mem, s, len, p);
      }
    }
  }

  /**
    A hit is no accident: some prefix of the path has the length and hash of an
    entry, or of a dummy slot; it is the shortest such prefix, and what is
    returned is the length of the path behind it.
   */
  lemma {:induction false} HitIsShortest(slots: seq<Slot>, mem: Path, scan: nat, len: nat) returns (s: nat)
    requires MatchFrom(slots, mem, scan, len).Hit?
    ensures scan <= s <= |mem| && MatchFrom(slots, mem, scan, len).rest == (len - s) % USHORT
    ensures || Entry(s, HashSum(0, mem[..s])) in Decode(slots, scan)
            || exists i :: 0 <= i < |slots| && slots[i] == Slot(DUMMY, HashSum(0, mem[..s]))
    ensures forall e :: e in Decode(slots, scan) && e.len < s ==> HashSum(0, mem[..e.len]) != e.hash
  {
    hide HashSum;
    s := scan + slots[0].delta;
    var rest := slots[1..];
    DecodeFits(rest, s);
    AllAtLeast(Decode(rest, s), s);
    if HashSum(0, mem[..s]) != slots[0].hash {
      var first := s;
      s := HitIsShortest(rest, mem, first, len);
      assert forall i :: 0 <= i < |rest| ==> rest[i] == slots[i + 1];
    }
  }

  // ---- Histories ----

  datatype Op = Add(path: Path) | Del(path: Path)

  /** Whether the operation changes the table. */
  predicate Succeeds(es: seq<Entry>, op: Op)
    requires SortedFrom(es, 0)
  {
    InsertSorted(es, Key(op.path), 0);
    match op
    case Add(p) => |es| < GH_SIZE && Need(Insert(es, Key(p)), 0) <= GH_SIZE
    case Del(p) => Found(es, Key(p))
  }

  function Apply(es: seq<Entry>, op: Op): seq<Entry>
    requires SortedFrom(es, 0)
  {
    if !Succeeds(es, op) then es else
      match op
      case Add(p) => Insert(es, Key(p))
      case Del(p) => Remove(es, Stop(es, Key(p)))
  }

  lemma {:induction false} NeedAtLeast(es: seq<Entry>, scan: nat)
    requires SortedFrom(es, scan)
    ensures Need(es, scan) >= |es|
  {
    if es != [] { NeedAtLeast(es[1..], es[0].len); }
  }

  /** An add succeeds exactly when the slots of the longer list are at most 64. */
  lemma AddSucceedsIff(es: seq<Entry>, p: Path)
    requires SortedFrom(es, 0)
    ensures SortedFrom(Insert(es, Key(p)), 0)
    ensures Succeeds(es, Add(p)) <==> |Encode(Insert(es, Key(p)), 0)| <= 64
  {
    hide Encode, Need, Key, SortedFrom;
    InsertSorted(es, Key(p), 0);
    NeedExact(Insert(es, Key(p)), 0);
    NeedAtLeast(Insert(es, Key(p)), 0);
  }

  /** Exactly one pair comes or goes with an operation that succeeds, and nothing changes with one that fails. */
  lemma ApplyChangesOne(es: seq<Entry>, op: Op)
    requires SortedFrom(es, 0)
    ensures SortedFrom(Apply(es, op), 0)
    ensures multiset(Apply(es, op)) ==
            if !Succeeds(es, op) then multiset(es)
            else if op.Add? then multiset(es) + multiset{Key(op.path)}
            else multiset(es) - multiset{Key(op.path)}
    ensures op.Del? && Succeeds(es, op) ==> Need(Apply(es, op), 0) <= Need(es, 0)
  {
    var e := Key(op.path);
    InsertSorted(es, e, 0);
    InsertAdds(es, e);
    if op.Del? && Succeeds(es, op) {
      RemoveSorted(es, Stop(es, e), 0);
      RemoveTakes(es, Stop(es, e));
    }
  }

  function Keys(stored: seq<Path>): (es: seq<Entry>)
    ensures |es| == |stored|
  {
    if stored == [] then [] else [Key(stored[0])] + Keys(stored[1..])
  }

  lemma {:induction false} KeysConcat(a: seq<Path>, b: seq<Path>)
    ensures Keys(a + b) == Keys(a) + Keys(b)
  {
    if a == [] {
      assert a + b == b;
    } else {
      assert (a + b)[1..] == a[1..] + b;
      KeysConcat(a[1..], b);
    }
  }

  lemma {:induction false} KeysIn(stored: seq<Path>, p: Path)
    requires p in stored
    ensures Key(p) in Keys(stored)
  {
    if stored[0] != p {
      assert stored == [stored[0]] + stored[1..];
      KeysIn(stored[1..], p);
    }
  }

  function Without(stored: seq<Path>, p: Path): seq<Path> {
    if stored == [] then [] else if stored[0] == p then stored[1..] else [stored[0]] + Without(stored[1..], p)
  }

  lemma KeysFirst(p: Path, rest: seq<Path>)
    ensures multiset(Keys([p] + rest)) == multiset{Key(p)} + multiset(Keys(rest))
  {
    assert ([p] + rest)[1..] == rest;
  }

  lemma TakeLater(a: Entry, b: Entry, m: multiset<Entry>)
    requires b in m
    ensures multiset{a} + (m - multiset{b}) == multiset{a} + m - multiset{b}
  {}

  lemma {:induction false} KeysWithout(stored: seq<Path>, p: Path)
    requires p in stored
    ensures multiset(Keys(Without(stored, p))) == multiset(Keys(stored)) - multiset{Key(p)}
  {
    hide Key, Keys;
    var rest := stored[1..];
    assert stored == [stored[0]] + rest;
    KeysFirst(stored[0], rest);
    if stored[0] != p {
      KeysWithout(rest, p);
      KeysIn(rest, p);
      KeysFirst(stored[0], Without(rest, p));
      TakeLater(Key(stored[0]), Key(p), multiset(Keys(rest)));
    }
  }

  /** The paths that are stored after an operation. */
  function Track(stored: seq<Path>, es: seq<Entry>, op: Op): seq<Path>
    requires SortedFrom(es, 0)
  {
    if !Succeeds(es, op) then stored
    else if op.Add? then stored + [op.path]
    else Without(stored, op.path)
  }

  /** A table with its past: the entries, the paths stored and not deleted since, and the pairs lost to other paths. */
  datatype Book = Book(es: seq<Entry>, stored: seq<Path>, lost: multiset<Entry>)

  const BLANK := Book([], [], multiset{})

  /** A delete of a path that is not stored and yet takes a pair. */
  predicate Steals(b: Book, op: Op)
    requires SortedFrom(b.es, 0)
  {
    op.Del? && op.path !in b.stored && Succeeds(b.es, op)
  }

  function Record(b: Book, op: Op): Book
    requires SortedFrom(b.es, 0)
  {
    Book(Apply(b.es, op), Track(b.stored, b.es, op),
         b.lost + if Steals(b, op) then multiset{Key(op.path)} else multiset{})
  }

  /** Any sequence of adds and deletes, successful or not, of stored paths or of others. */
  ghost predicate History(b: Book, ops: seq<Op>, b': Book)
    decreases |ops|
  {
    if ops == [] then b' == b else SortedFrom(b.es, 0) && History(Record(b, ops[0]), ops[1..], b')
  }

  /** No delete of a history takes the pair of another path. */
  ghost predicate Harmless(b: Book, ops: seq<Op>)
    decreases |ops|
  {
    ops == [] || (SortedFrom(b.es, 0) && !Steals(b, ops[0]) && Harmless(Record(b, ops[0]), ops[1..]))
  }

  /** Every stored path has its pair in the table, or lost it to another path. */
  ghost predicate Balanced(b: Book) {
    SortedFrom(b.es, 0) && multiset(b.es) + b.lost == multiset(Keys(b.stored))
  }

  lemma Ledger(m: multiset<Entry>, lost: multiset<Entry>, k: Entry)
    ensures m + multiset{k} + lost == m + lost + multiset{k}
    ensures k in m ==> m - multiset{k} + lost == m + lost - multiset{k}
    ensures k in m ==> m - multiset{k} + (lost + multiset{k}) == m + lost
    ensures lost + multiset{} == lost
  {}

  lemma RecordBalances(b: Book, op: Op)
    requires Balanced(b)
    ensures Balanced(Record(b, op))
  {
    hide Apply, Succeeds, Key, Keys, Without, SortedFrom;
    ApplyChangesOne(b.es, op);
    Ledger(multiset(b.es), b.lost, Key(op.path));
    KeysMore(b.stored, op.path);
    if op.Del? && Succeeds(b.es, op) {
      FoundIn(b.es, op);
      if op.path in b.stored {
        KeysWithout(b.stored, op.path);
      } else {
        WithoutNothing(b.stored, op.path);
      }
    }
  }

  lemma KeysMore(stored: seq<Path>, p: Path)
    ensures multiset(Keys(stored + [p])) == multiset(Keys(stored)) + multiset{Key(p)}
  {
    hide Key;
    KeysConcat(stored, [p]);
    assert Keys([p]) == [Key(p)];
  }

  lemma FoundIn(es: seq<Entry>, op: Op)
    requires SortedFrom(es, 0) && op.Del? && Succeeds(es, op)
    ensures Key(op.path) in multiset(es)
  {
    hide Key;
  }

  lemma {:induction false} WithoutNothing(stored: seq<Path>, p: Path)
    requires p !in stored
    ensures Without(stored, p) == stored
  {
    if stored != [] { WithoutNothing(stored[1..], p); }
  }

  /** After any history the pairs of the table and the lost ones are together the keys of the stored paths. */
  lemma {:induction false} HistoryBalances(b: Book, ops: seq<Op>, b': Book)
    requires Balanced(b) && History(b, ops, b')
    ensures Balanced(b') && b.lost <= b'.lost
    ensures b'.lost == b.lost <==> Harmless(b, ops)
    decreases |ops|
  {
    hide Record, Steals, Keys;
    if ops != [] {
      RecordBalances(b, ops[0]);
      RecordLoses(b, ops[0]);
      HistoryBalances(Record(b, ops[0]), ops[1..], b');
    }
  }

  lemma RecordLoses(b: Book, op: Op)
    requires SortedFrom(b.es, 0)
    ensures b.lost <= Record(b, op).lost
    ensures if Steals(b, op) then Key(op.path) in Record(b, op).lost && |Record(b, op).lost| == |b.lost| + 1
            else Record(b, op).lost == b.lost
  {
    hide Apply, Succeeds, Key, Track;
  }

  /**
    The table holds exactly the keys of the stored paths if and only if no
    delete of the history took the pair of another path.
   */
  lemma TableExactIff(ops: seq<Op>, b: Book)
    requires History(BLANK, ops, b)
    ensures multiset(b.es) == multiset(Keys(b.stored)) <==> Harmless(BLANK, ops)
  {
    hide History, Harmless, Keys;
    BlankBalances();
    HistoryBalances(BLANK, ops, b);
    if multiset(b.es) == multiset(Keys(b.stored)) {
      assert |multiset(b.es) + b.lost| == |multiset(b.es)| + |b.lost|;
    }
  }

  lemma BlankBalances()
    ensures Balanced(BLANK)
  {}

  /**
    No false negatives: after any history, on any slots that stand for the
    resulting entries, a path with a stored prefix is matched, and the value
    returned is not negative, unless all pairs with the key of that prefix were
    lost to deletes of other paths.
   */
  lemma StoredPrefixMatches(ops: seq<Op>, b: Book, slots: seq<Slot>, p: Path, query: Path, after: Path)
    requires History(BLANK, ops, b) && Decode(slots, 0) == b.es
    requires p in b.stored && b.lost[Key(p)] < multiset(Keys(b.stored))[Key(p)]
    requires p <= query && |query| < USHORT
    ensures MatchFrom(slots, query + after, 0, |query|).Hit?
    ensures |query| - |p| <= MatchFrom(slots, query + after, 0, |query|).rest <= |query|
  {
    hide MatchFrom, Decode, Key, Keys, History;
    BlankBalances();
    HistoryBalances(BLANK, ops, b);
    assert Key(p) in multiset(b.es);
    assert p <= query + after;
    NoFalseNegative(slots, query + after, 0, |query|, p);
  }

  /** The same for every stored path, after every history in which no delete takes the pair of another path. */
  lemma HarmlessHistoryMatches(ops: seq<Op>, b: Book, slots: seq<Slot>, p: Path, query: Path, after: Path)
    requires History(BLANK, ops, b) && Harmless(BLANK, ops) && Decode(slots, 0) == b.es
    requires p in b.stored && p <= query && |query| < USHORT
    ensures MatchFrom(slots, query + after, 0, |query|).Hit?
    ensures |query| - |p| <= MatchFrom(slots, query + after, 0, |query|).rest <= |query|
  {
    hide MatchFrom, Decode, Key, Keys, History, Harmless;
    BlankBalances();
    HistoryBalances(BLANK, ops, b);
    KeysIn(b.stored, p);
    assert Key(p) in multiset(Keys(b.stored));
    StoredPrefixMatches(ops, b, slots, p, query, after);
  }

  lemma {:induction false} KeyOf(stored: seq<Path>, e: Entry)
    ensures e in Keys(stored) <==> exists q :: q in stored && Key(q) == e
  {
    hide Key;
    if stored != [] {
      assert stored == [stored[0]] + stored[1..];
      KeyOf(stored[1..], e);
    }
  }

  /**
    When a delete of a path that is not stored takes a pair: exactly when the
    table has the pair of its length and hash and no shorter one with its hash.
    As long as no pair was lost before, these are pairs of stored paths.
   */
  lemma StealsIff(b: Book, p: Path)
    requires Balanced(b) && p !in b.stored
    ensures Steals(b, Del(p)) <==>
            && Entry(|p|, HashSum(0, p)) in b.es
            && (forall x :: x in b.es && x.len < |p| ==> x.hash != HashSum(0, p))
    ensures b.lost == multiset{} ==>
              (Steals(b, Del(p)) <==>
               && (exists q :: q in b.stored && |q| == |p| && HashSum(0, q) == HashSum(0, p))
               && (forall q :: q in b.stored && |q| < |p| ==> HashSum(0, q) != HashSum(0, p)))
  {
    hide HashSum, Keys, Found, SortedFrom, Key;
    var e := Key(p);
    FoundIff(b.es, e, 0);
    KeyIs(p);
    if b.lost == multiset{} {
      PairsAreKeys(b);
      forall q ensures Key(q).len == |q| && Key(q).hash == HashSum(0, q) { KeyIs(q); }
    }
  }

  lemma KeyIs(p: Path)
    ensures Key(p) == Entry(|p|, HashSum(0, p))
  {}

  /** With nothing lost, the pairs are those of the stored paths. */
  lemma PairsAreKeys(b: Book)
    requires Balanced(b) && b.lost == multiset{}
    ensures forall x :: x in b.es ==> exists q :: q in b.stored && Key(q) == x
    ensures forall q :: q in b.stored ==> Key(q) in b.es
  {
    hide Keys, Key, SortedFrom;
    forall x | x in b.es ensures exists q :: q in b.stored && Key(q) == x {
      assert x in multiset(Keys(b.stored));
      KeyOf(b.stored, x);
    }
    forall q | q in b.stored ensures Key(q) in b.es {
      KeysIn(b.stored, q);
      assert Key(q) in multiset(Keys(b.stored));
    }
  }

  lemma HashSnoc(s: Path, c: bv8)
    ensures HashSum(0, s + [c]) == HashAdd(HashSum(0, s), c)
  {
    assert (s + [c])[..|s|] == s;
  }

  /** "/70d2b" and "/bif8t7". */
  const SHORTER: Path := [0x2f, 0x37, 0x30, 0x64, 0x32, 0x62]
  const LONGER: Path := [0x2f, 0x62, 0x69, 0x66, 0x38, 0x74, 0x37]

  lemma HashEmpty()
    ensures HashSum(0, []) == 0
  {}

  lemma HashOfShorter()
    ensures HashSum(0, SHORTER) == 0x61f7b61f
  {
    hide HashSum;
    var s0: Path := [];
    HashEmpty();
    var s1 := s0 + [0x2f];
    HashSnoc(s0, 0x2f);
    var s2 := s1 + [0x37];
    HashSnoc(s1, 0x37);
    var s3 := s2 + [0x30];
    HashSnoc(s2, 0x30);
    var s4 := s3 + [0x64];
    HashSnoc(s3, 0x64);
    var s5 := s4 + [0x32];
    HashSnoc(s4, 0x32);
    var s6 := s5 + [0x62];
    HashSnoc(s5, 0x62);
    assert HashAdd(0x0, 0x2f) == 0x2f;
    assert HashAdd(0x2f, 0x37) == 0x60d;
    assert HashAdd(0x60d, 0x30) == 0xc55e;
    assert HashAdd(0xc55e, 0x64) == 0x181825;
    assert HashAdd(0x181825, 0x32) == 0x31112fe;
    assert HashAdd(0x31112fe, 0x62) == 0x61f7b61f;
    assert s6 == SHORTER;
  }

  lemma HashOfLonger()
    ensures HashSum(0, LONGER) == 0x61f7b61f
  {
    hide HashSum;
    var s0: Path := [];
    HashEmpty();
    var s1 := s0 + [0x2f];
    HashSnoc(s0, 0x2f);
    var s2 := s1 + [0x62];
    HashSnoc(s1, 0x62);
    var s3 := s2 + [0x69];
    HashSnoc(s2, 0x69);
    var s4 := s3 + [0x66];
    HashSnoc(s3, 0x66);
    var s5 := s4 + [0x38];
    HashSnoc(s4, 0x38);
    var s6 := s5 + [0x74];
    HashSnoc(s5, 0x74);
    var s7 := s6 + [0x37];
    HashSnoc(s6, 0x37);
    assert HashAdd(0x0, 0x2f) == 0x2f;
    assert HashAdd(0x2f, 0x62) == 0x662;
    assert HashAdd(0x662, 0x69) == 0xc823;
    assert HashAdd(0xc823, 0x66) == 0x19feed;
    assert HashAdd(0x19feed, 0x38) == 0x35fa37e;
    assert HashAdd(0x35fa37e, 0x74) == 0x6f93fa6d;
    assert HashAdd(0x6f93fa6d, 0x37) == 0x61f7b61f;
    assert s7 == LONGER;
  }

  /** Bytes from 0x80 on count as negative, and so do hashes when they are shifted. */
  lemma HashOfHigh()
    ensures HashSum(0, [0x80]) == 0xffffff80 && HashSum(0, [0x80, 0x2f]) == 0xf8f
  {
    hide HashSum;
    var s0: Path := [];
    HashEmpty();
    var s1 := s0 + [0x80];
    HashSnoc(s0, 0x80);
    var s2 := s1 + [0x2f];
    HashSnoc(s1, 0x2f);
    assert HashAdd(0x0, 0x80) == 0xffffff80;
    assert HashAdd(0xffffff80, 0x2f) == 0xf8f;
    assert s1 == [0x80] && s2 == [0x80, 0x2f];
  }

  lemma Collision()
    ensures Key(SHORTER) == Entry(6, 0x61f7b61f) && Key(LONGER) == Entry(7, 0x61f7b61f)
  {
    HashOfShorter();
    HashOfLonger();
  }

  /** A delete of a stored path can miss it: with both of these stored, deleting the longer one fails. */
  lemma DeleteMisses(es: seq<Entry>)
    requires SortedFrom(es, 0) && Key(SHORTER) in es && Key(LONGER) in es
    ensures !Succeeds(es, Del(LONGER))
  {
    Collision();
    FoundIff(es, Key(LONGER), 0);
  }

  /** "/a2" and "/cp". */
  const KEPT: Path := [0x2f, 0x61, 0x32]
  const GONE: Path := [0x2f, 0x63, 0x70]

  lemma HashOfKept()
    ensures HashSum(0, KEPT) == 0xc849
  {
    hide HashSum;
    var s0: Path := [];
    HashEmpty();
    var s1 := s0 + [0x2f];
    HashSnoc(s0, 0x2f);
    var s2 := s1 + [0x61];
    HashSnoc(s1, 0x61);
    var s3 := s2 + [0x32];
    HashSnoc(s2, 0x32);
    assert HashAdd(0x0, 0x2f) == 0x2f;
    assert HashAdd(0x2f, 0x61) == 0x663;
    assert HashAdd(0x663, 0x32) == 0xc849;
    assert s3 == KEPT;
  }

  lemma HashOfGone()
    ensures HashSum(0, GONE) == 0xc849
  {
    hide HashSum;
    var s0: Path := [];
    HashEmpty();
    var s1 := s0 + [0x2f];
    HashSnoc(s0, 0x2f);
    var s2 := s1 + [0x63];
    HashSnoc(s1, 0x63);
    var s3 := s2 + [0x70];
    HashSnoc(s2, 0x70);
    assert HashAdd(0x0, 0x2f) == 0x2f;
    assert HashAdd(0x2f, 0x63) == 0x661;
    assert HashAdd(0x661, 0x70) == 0xc849;
    assert s3 == GONE;
  }

  /** A delete can take the pair of another path: with "/a2" alone stored, deleting "/cp" loses it. */
  lemma ForeignDelete(rest: seq<Slot>, after: Path)
    requires rest == [] || rest[0].delta == TERMINATE
    ensures Key(KEPT) == Key(GONE)
    ensures var b := Record(Record(BLANK, Add(KEPT)), Del(GONE));
      && b.stored == [KEPT] && b.es == []
      && MatchFrom(Encode(b.es, 0) + rest, KEPT + after, 0, |KEPT|) == NoEntry
  {
    hide HashSum;
    HashOfKept();
    HashOfGone();
    var e := Key(KEPT);
    assert Insert([], e) == [e];
    assert Need([e], 0) == 1;
    var b := Record(BLANK, Add(KEPT));
    assert b.es == [e] && b.stored == [KEPT];
    assert KEPT[1] != GONE[1];
    assert Remove([e], 0) == [];
  }
}

/** The table in its two arrays, with the loops that unpack and pack it. */
module GhostHash {
  import opened GhostHashSpec

  const ENOMEM := 12
  const ENOENT := 2
  const SHORT := 32768

  /** The part of a path that a length kept as an unsigned short reaches. */
  function Seen(path: Path): (p: Path) {
    path[..|path| % USHORT]
  }

  /** A path of less than 64 KiB is seen whole, and of a longer one a multiple of that is lost. */
  lemma SeenWhole(path: Path)
    ensures Seen(path) <= path && |Seen(path)| < 65536 && (|path| - |Seen(path)|) % 65536 == 0
    ensures |path| < 65536 ==> Seen(path) == path
  {}

  /** Two parallel arrays start with the entries es. */
  ghost predicate Holds(len: array<nat>, hash: array<bv32>, es: seq<Entry>)
    reads len, hash
  {
    && |es| <= len.Length == hash.Length
    && forall i :: 0 <= i < |es| ==> es[i] == Entry(len[i], hash[i])
  }

  lemma DecodeShort(slots: seq<Slot>, scan: nat)
    ensures |Decode(slots, scan)| <= |slots|
  {
    DecodeFits(slots, scan);
    NeedLong(Decode(slots, scan), scan);
  }

  lemma {:induction false} NeedLong(es: seq<Entry>, scan: nat)
    requires SortedFrom(es, scan)
    ensures |es| <= Need(es, scan)
  {
    if es != [] { NeedLong(es[1..], es[0].len); }
  }

  lemma DecodeNext(slots: seq<Slot>, i: nat, scan: nat)
    requires i < |slots|
    ensures slots[i].delta == TERMINATE ==> Decode(slots[i..], scan) == []
    ensures slots[i].delta == DUMMY ==> Decode(slots[i..], scan) == Decode(slots[i + 1..], scan + DUMMY)
    ensures slots[i].delta < DUMMY ==>
              Decode(slots[i..], scan) ==
              [Entry(scan + slots[i].delta, slots[i].hash)] + Decode(slots[i + 1..], scan + slots[i].delta)
  {
    assert slots[i..][1..] == slots[i + 1..];
  }

  /** The hash of n bytes read from position from on, starting with sum. */
  method ComputeHash(sum: bv32, mem: Path, from: nat, n: nat) returns (h: bv32)
    requires from + n <= |mem|
    ensures h == HashSum(sum, mem[from..from + n])
  {
    hide HashAdd;
    h := sum;
    var i := 0;
    while i < n
      invariant 0 <= i <= n && h == HashSum(sum, mem[from..from + i])
    {
      assert mem[from..from + i + 1][..i] == mem[from..from + i];
      h := HashAdd(h, mem[from + i]);
      i := i + 1;
    }
  }

  /** The length of a path as an unsigned short, and the hash of that many bytes. */
  method HashOf(path: Path) returns (len: nat, h: bv32)
    ensures len == |Seen(path)| && h == HashSum(0, Seen(path))
  {
    len := |path| % USHORT;
    h := ComputeHash(0, path, 0, len);
    assert path[0..len] == Seen(path);
  }

  class Table {
    const deltalen: array<Byte>
    const hash: array<bv32>

    ghost predicate Valid()
      reads this
    {
      deltalen.Length == hash.Length == GH_SIZE && deltalen as object != hash
    }

    /** The arrays of a caller are not those of the table. */
    ghost predicate Apart(tmplen: array<nat>, tmphash: array<bv32>) {
      && tmplen as object != deltalen && tmplen as object != hash && tmplen as object != tmphash
      && tmphash != hash && tmphash as object != deltalen
    }

    ghost function Slots(): (s: seq<Slot>)
      requires Valid()
      reads this, deltalen, hash
      ensures |s| == GH_SIZE && forall i :: 0 <= i < GH_SIZE ==> s[i] == Slot(deltalen[i], hash[i])
    {
      seq(GH_SIZE, i requires 0 <= i < GH_SIZE && Valid() reads this, deltalen, hash => Slot(deltalen[i], hash[i]))
    }

    /** The entries the table stands for, whatever it holds. */
    ghost function Entries(): (es: seq<Entry>)
      requires Valid()
      reads this, deltalen, hash
      ensures SortedFrom(es, 0) && Need(es, 0) <= GH_SIZE && |es| <= GH_SIZE
    {
      DecodeFits(Slots(), 0);
      DecodeShort(Slots(), 0);
      Decode(Slots(), 0)
    }

    constructor ()
      ensures Valid() && Entries() == [] && fresh(deltalen) && fresh(hash)
    {
      deltalen, hash := new Byte[GH_SIZE], new bv32[GH_SIZE];
      new;
      deltalen[0] := TERMINATE;
    }

    /** Unpacks the table into two arrays. */
    method Gh2Array(tmplen: array<nat>, tmphash: array<bv32>) returns (ntmp: nat)
      requires Valid() && tmplen.Length == tmphash.Length == GH_SIZE && Apart(tmplen, tmphash)
      modifies tmplen, tmphash
      ensures ntmp == |Entries()| && Holds(tmplen, tmphash, Entries())
    {
      hide Decode;
      ghost var slots, es := Slots(), [];
      var i, scanlen: nat := 0, 0;
      ntmp := 0;
      assert slots[0..] == slots;
      while i < GH_SIZE && deltalen[i] != TERMINATE
        invariant 0 <= ntmp == |es| <= i <= GH_SIZE && Slots() == slots
        invariant Holds(tmplen, tmphash, es)
        invariant es + Decode(slots[i..], scanlen) == Decode(slots, 0)
      {
        DecodeNext(slots, i, scanlen);
        scanlen := scanlen + deltalen[i];
        if deltalen[i] != DUMMY {
          tmplen[ntmp] := scanlen;
          tmphash[ntmp] := hash[i];
          ntmp := ntmp + 1;
          Shift(es, Entry(scanlen, slots[i].hash), Decode(slots[i + 1..], scanlen));
          es := es + [Entry(scanlen, slots[i].hash)];
        }
        i := i + 1;
      }
      DecodeEnd(slots, i, scanlen);
    }

    /** Packs a sorted list into the table, unless it needs too many slots. */
    method Array2Gh(tmplen: array<nat>, tmphash: array<bv32>, ntmp: nat, ghost es: seq<Entry>) returns (ngh: int)
      requires Valid() && Holds(tmplen, tmphash, es) && ntmp == |es| && SortedFrom(es, 0) && Apart(tmplen, tmphash)
      modifies deltalen, hash
      ensures Need(es, 0) <= GH_SIZE ==> ngh == Need(es, 0) && Entries() == es
      ensures Need(es, 0) > GH_SIZE ==> ngh == -ENOMEM && Slots() == old(Slots())
    {
      ngh := CountSlots(tmplen, tmphash, ntmp, es);
      if ngh > GH_SIZE {
        return -ENOMEM;
      }
      FillSlots(tmplen, tmphash, ntmp, es);
      NeedExact(es, 0);
      ghost var filled := Slots();
      if ngh < GH_SIZE {
        deltalen[ngh] := TERMINATE;
      }
      ghost var slots, n := Slots(), Need(es, 0);
      assert slots[..n] == Encode(es, 0) by { assert forall k :: 0 <= k < n ==> slots[k] == filled[k]; }
      assert slots == Encode(es, 0) + slots[n..];
      DecodeEncode(es, 0, slots[n..]);
    }

    method CountSlots(tmplen: array<nat>, tmphash: array<bv32>, ntmp: nat, ghost es: seq<Entry>) returns (ngh: nat)
      requires Holds(tmplen, tmphash, es) && ntmp == |es| && SortedFrom(es, 0)
      ensures ngh == Need(es, 0)
    {
      if ntmp == 0 {
        return 0;
      }
      ngh := tmplen[0] / DUMMY + 1;
      var i := 1;
      while i < ntmp
        invariant 1 <= i <= ntmp && SortedFrom(es[i..], tmplen[i - 1])
        invariant ngh + Need(es[i..], tmplen[i - 1]) == Need(es, 0)
      {
        assert es[i..][0] == es[i] && es[i..][1..] == es[i + 1..];
        ngh := ngh + (tmplen[i] - tmplen[i - 1]) / DUMMY + 1;
        i := i + 1;
      }
      assert es[i..] == [];
    }

    /** Writes the slots of a list that fits. */
    method FillSlots(tmplen: array<nat>, tmphash: array<bv32>, ntmp: nat, ghost es: seq<Entry>)
      requires Valid() && Holds(tmplen, tmphash, es) && ntmp == |es| && SortedFrom(es, 0) && Apart(tmplen, tmphash)
      requires Need(es, 0) <= GH_SIZE
      modifies deltalen, hash
      ensures Slots()[..Need(es, 0)] == Encode(es, 0)
    {
      hide Encode, Need;
      ghost var slots := Encode(es, 0);
      NeedExact(es, 0);
      var i, j, scanlen: nat := 0, 0, 0;
      assert es[0..] == es;
      while i < ntmp
        invariant 0 <= i <= ntmp && 0 <= j <= |slots| <= GH_SIZE && SortedFrom(es[i..], scanlen)
        invariant Holds(tmplen, tmphash, es)
        invariant Slots()[..j] == slots[..j] && slots[j..] == Encode(es[i..], scanlen)
        decreases ntmp - i, if i < ntmp then tmplen[i] - scanlen else 0
      {
        EncodeNext(es, i, scanlen, slots, j);
        ghost var before := Slots();
        if tmplen[i] - scanlen >= DUMMY {
          deltalen[j] := DUMMY;
          scanlen := scanlen + DUMMY;
          hash[j] := NOHASH;
        } else {
          deltalen[j] := tmplen[i] - scanlen;
          hash[j] := tmphash[i];
          scanlen := tmplen[i];
          i := i + 1;
        }
        Extended(before, Slots(), slots, j);
        j := j + 1;
      }
      EncodeEnd(es, i, scanlen, slots, j);
    }

    /** Stores a path; a table without room for it stays as it is. */
    method Add(path: Path) returns (r: int)
      requires Valid() && |Seen(path)| < SHORT
      modifies deltalen, hash
      ensures Succeeds(old(Entries()), Op.Add(Seen(path))) ==> r == Need(Entries(), 0)
      ensures !Succeeds(old(Entries()), Op.Add(Seen(path))) ==> r == -ENOMEM && Slots() == old(Slots())
      ensures Entries() == Apply(old(Entries()), Op.Add(Seen(path)))
    {
      hide Decode, Need, HashSum, Seen, InsertAt, Position, SortedFrom;
      ghost var es := Entries();
      var len, h := HashOf(path);
      var tmplen, tmphash := new nat[GH_SIZE], new bv32[GH_SIZE];
      var ntmp := Gh2Array(tmplen, tmphash);
      if ntmp >= GH_SIZE {
        return -ENOMEM;
      }
      var pos := FindPosition(tmplen, tmphash, ntmp, len, es);
      OpenGap(tmplen, tmphash, ntmp, pos, len, h, es);
      InsertSorted(es, Key(Seen(path)), 0);
      r := Array2Gh(tmplen, tmphash, ntmp + 1, Insert(es, Key(Seen(path))));
    }

    /** Removes a path; fails exactly when the search does not stop at its entry. */
    method Del(path: Path) returns (r: int)
      requires Valid()
      modifies deltalen, hash
      ensures Succeeds(old(Entries()), Op.Del(Seen(path))) ==> r == Need(Entries(), 0)
      ensures !Succeeds(old(Entries()), Op.Del(Seen(path))) ==> r == -ENOENT && Slots() == old(Slots())
      ensures Entries() == Apply(old(Entries()), Op.Del(Seen(path)))
    {
      hide Decode, Need, HashSum, Seen;
      ghost var es := Entries();
      var len, h := HashOf(path);
      var tmplen, tmphash := new nat[GH_SIZE], new bv32[GH_SIZE];
      var ntmp := Gh2Array(tmplen, tmphash);
      var pos := FindStop(tmplen, tmphash, ntmp, len, h, es);
      if pos < ntmp && len == tmplen[pos] && h == tmphash[pos] {
        CloseGap(tmplen, tmphash, ntmp, pos, es);
        RemoveSorted(es, pos, 0);
        r := Array2Gh(tmplen, tmphash, ntmp - 1, Remove(es, pos));
      } else {
        r := -ENOENT;
      }
    }

    /** Looks for a stored prefix of the path at the start of the readable memory. */
    method Match(mem: Path, strlen: nat) returns (r: Match)
      requires Valid() && strlen < |mem| && mem[strlen] == 0
      ensures r == MatchFrom(Slots(), mem, 0, strlen % USHORT)
    {
      hide MatchFrom, HashSum;
      ghost var slots := Slots();
      var len: nat := strlen % USHORT;
      var i, path: nat, scanhash := 0, 0, 0;
      assert slots[0..] == slots;
      HashNone(mem);
      while i < GH_SIZE && deltalen[i] < TERMINATE
        invariant 0 <= i <= GH_SIZE && path <= |mem|
        invariant len == (strlen % USHORT - path) % USHORT && scanhash == HashSum(0, mem[..path])
        invariant MatchFrom(slots, mem, 0, strlen % USHORT) == MatchFrom(slots[i..], mem, path, strlen % USHORT)
      {
        MatchNext(slots, i, mem, path, strlen % USHORT);
        var d: nat := deltalen[i];
        if d > 0 {
          if path + d > |mem| {
            return Overread;
          }
          scanhash := ComputeHash(scanhash, mem, path, d);
          HashMore(mem, path, d);
          LenStep(strlen % USHORT, path, d, len);
          path := path + d;
          len := (len - d) % USHORT;
        }
        if scanhash == hash[i] {
          return Hit(len);
        }
        i := i + 1;
      }
      MatchEnd(slots, i, mem, path, strlen % USHORT);
      r := NoEntry;
    }
  }

  method FindPosition(tmplen: array<nat>, tmphash: array<bv32>, ntmp: nat, len: nat, ghost es: seq<Entry>)
    returns (pos: nat)
    requires Holds(tmplen, tmphash, es) && ntmp == |es|
    ensures pos == Position(es, len)
  {
    pos := 0;
    assert es[0..] == es;
    while pos < ntmp && tmplen[pos] < len
      invariant 0 <= pos <= ntmp && Position(es, len) == pos + Position(es[pos..], len)
    {
      assert es[pos..][0] == es[pos] && es[pos..][1..] == es[pos + 1..];
      pos := pos + 1;
    }
    if pos < ntmp { assert es[pos..][0] == es[pos]; }
  }

  method FindStop(tmplen: array<nat>, tmphash: array<bv32>, ntmp: nat, len: nat, hash: bv32, ghost es: seq<Entry>)
    returns (pos: nat)
    requires Holds(tmplen, tmphash, es) && ntmp == |es|
    ensures pos == Stop(es, Entry(len, hash))
  {
    pos := 0;
    ghost var e := Entry(len, hash);
    assert es[0..] == es;
    while pos < ntmp && tmplen[pos] <= len && hash != tmphash[pos]
      invariant 0 <= pos <= ntmp && Stop(es, e) == pos + Stop(es[pos..], e)
    {
      assert es[pos..][0] == es[pos] && es[pos..][1..] == es[pos + 1..];
      pos := pos + 1;
    }
    if pos < ntmp { assert es[pos..][0] == es[pos]; }
  }

  /** Moves the pairs from pos on one place up and puts a new one at pos. */
  method OpenGap(tmplen: array<nat>, tmphash: array<bv32>, ntmp: nat, pos: nat, len: nat, hash: bv32,
                 ghost es: seq<Entry>)
    requires Holds(tmplen, tmphash, es) && ntmp == |es| < tmplen.Length && pos <= ntmp && tmplen as object != tmphash
    modifies tmplen, tmphash
    ensures Holds(tmplen, tmphash, InsertAt(es, pos, Entry(len, hash)))
  {
    hide InsertAt;
    var k := ntmp;
    while k > pos
      invariant pos <= k <= ntmp
      invariant forall i :: 0 <= i < k ==> es[i] == Entry(tmplen[i], tmphash[i])
      invariant forall i :: k < i <= ntmp ==> es[i - 1] == Entry(tmplen[i], tmphash[i])
    {
      tmplen[k], tmphash[k] := tmplen[k - 1], tmphash[k - 1];
      k := k - 1;
    }
    tmplen[pos], tmphash[pos] := len, hash;
    InsertedAt(es, pos, Entry(len, hash));
  }

  lemma InsertedAt(es: seq<Entry>, pos: nat, e: Entry)
    requires pos <= |es|
    ensures var r := InsertAt(es, pos, e);
      (forall i :: 0 <= i < pos ==> r[i] == es[i]) && r[pos] == e && (forall i :: pos < i <= |es| ==> r[i] == es[i - 1])
  {}

  /** Moves the pairs after pos one place down. */
  method CloseGap(tmplen: array<nat>, tmphash: array<bv32>, ntmp: nat, pos: nat, ghost es: seq<Entry>)
    requires Holds(tmplen, tmphash, es) && ntmp == |es| && pos < ntmp && tmplen as object != tmphash
    modifies tmplen, tmphash
    ensures Holds(tmplen, tmphash, Remove(es, pos))
  {
    var k := pos;
    while k < ntmp - 1
      invariant pos <= k <= ntmp - 1
      invariant forall i :: 0 <= i < pos || k < i < ntmp ==> es[i] == Entry(tmplen[i], tmphash[i])
      invariant forall i :: pos <= i < k ==> es[i + 1] == Entry(tmplen[i], tmphash[i])
    {
      tmplen[k], tmphash[k] := tmplen[k + 1], tmphash[k + 1];
      k := k + 1;
    }
  }

  lemma HashNone(mem: Path)
    ensures HashSum(0, mem[..0]) == 0
  {}

  lemma HashMore(mem: Path, path: nat, d: nat)
    requires path + d <= |mem|
    ensures HashSum(0, mem[..path + d]) == HashSum(HashSum(0, mem[..path]), mem[path..path + d])
  {
    assert mem[..path + d] == mem[..path] + mem[path..path + d];
    HashConcat(0, mem[..path], mem[path..path + d]);
  }

  lemma LenStep(l: nat, path: nat, d: nat, len: nat)
    requires len == (l - path) % USHORT
    ensures (len - d) % USHORT == (l - (path + d)) % USHORT
  {}

  lemma MatchNext(slots: seq<Slot>, i: nat, mem: Path, scan: nat, len: nat)
    requires i < |slots| && slots[i].delta < TERMINATE
    ensures MatchFrom(slots[i..], mem, scan, len) ==
            var s := scan + slots[i].delta;
            if s > |mem| then Overread
            else if HashSum(0, mem[..s]) == slots[i].hash then Hit((len - s) % USHORT)
            else MatchFrom(slots[i + 1..], mem, s, len)
  {
    assert slots[i..][1..] == slots[i + 1..];
  }

  lemma MatchEnd(slots: seq<Slot>, i: nat, mem: Path, scan: nat, len: nat)
    requires i <= |slots| && (i < |slots| ==> slots[i].delta == TERMINATE)
    ensures MatchFrom(slots[i..], mem, scan, len) == NoEntry
  {}

  lemma Shift(es: seq<Entry>, e: Entry, rest: seq<Entry>)
    ensures es + ([e] + rest) == es + [e] + rest
  {}

  lemma DecodeEnd(slots: seq<Slot>, i: nat, scan: nat)
    requires i <= |slots| && (i < |slots| ==> slots[i].delta == TERMINATE)
    ensures Decode(slots[i..], scan) == [] && forall es: seq<Entry> :: es + [] == es
  {}

  lemma EncodeNext(es: seq<Entry>, i: nat, scan: nat, slots: seq<Slot>, j: nat)
    requires i < |es| && j <= |slots| && SortedFrom(es[i..], scan) && slots[j..] == Encode(es[i..], scan)
    ensures j < |slots| && scan <= es[i].len
    ensures es[i].len - scan >= DUMMY ==>
              && SortedFrom(es[i..], scan + DUMMY) && slots[j] == Slot(DUMMY, NOHASH)
              && slots[j + 1..] == Encode(es[i..], scan + DUMMY)
    ensures es[i].len - scan < DUMMY ==>
              SortedFrom(es[i + 1..], es[i].len) && slots[j] == Slot(es[i].len - scan, es[i].hash) &&
              slots[j + 1..] == Encode(es[i + 1..], es[i].len)
  {
    var r, t := es[i..], slots[j..];
    assert r[0] == es[i] && r[1..] == es[i + 1..];
    assert t != [];
    assert t[0] == slots[j] && t[1..] == slots[j + 1..];
  }

  lemma EncodeEnd(es: seq<Entry>, i: nat, scan: nat, slots: seq<Slot>, j: nat)
    requires i == |es| && j <= |slots| && SortedFrom(es[i..], scan) && slots[j..] == Encode(es[i..], scan)
    ensures j == |slots| && slots[..j] == slots
  {
    assert es[i..] == [];
  }

  lemma Extended(before: seq<Slot>, after: seq<Slot>, slots: seq<Slot>, j: nat)
    requires |before| == |after| && j < |before| && j < |slots| && before[..j] == slots[..j]
    requires after == before[j := slots[j]]
    ensures after[..j + 1] == slots[..j + 1]
  {
    assert after[..j + 1] == before[..j] + [slots[j]];
  }
}
