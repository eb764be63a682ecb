/** Setting one flag bit in a Mach-O executable's load commands, in place. */
module MachO {
  import opened Prelude

  type Byte = b: int | 0 <= b < 256

  const MH_MAGIC_64 := 0xfeed_facf
  const LC_SEGMENT_64 := 0x19
  const SG_READ_ONLY := 0x10
  const HEADER_SIZE := 32
  const DATA_CONST := "__DATA_CONST"

  // ---- Little-endian words ----

  predicate Readable(s: seq<Byte>, off: nat) { off + 4 <= |s| }

  function Word(s: seq<Byte>, off: nat): (w: nat)
    requires Readable(s, off)
    ensures w < 0x1_0000_0000
  {
    var a: int, b: int, c: int, d: int := s[off], s[off + 1], s[off + 2], s[off + 3];
    a + 0x100 * b + 0x1_0000 * c + 0x100_0000 * d
  }

  /** Bit 4 of a word, and the word with that bit set. */
  predicate ReadOnlySet(w: nat) { (w / SG_READ_ONLY) % 2 == 1 }

  function SetReadOnly(w: nat): nat { if ReadOnlySet(w) then w else w + SG_READ_ONLY }

  // ---- The segment name ----

  /** The sixteen name bytes, cut at the end of the buffer, without what follows the first zero byte. The pattern that
      strips them does not reach past a line end, so a name with one keeps its tail and is no match. */
  function NameBytes(s: seq<Byte>, off: nat): seq<Byte> {
    var from := Min(off + 8, |s|);
    var to := Min(off + 24, |s|);
    s[from..to]
  }

  predicate IsLineEnd(b: Byte) { b == 10 || b == 13 }

  predicate NameIs(bytes: seq<Byte>, name: string) {
    && |name| <= |bytes| && (forall i :: 0 <= i < |name| ==> bytes[i] == name[i] as int)
    && (|bytes| > |name| ==> bytes[|name|] == 0 && forall i :: |name| < i < |bytes| ==> !IsLineEnd(bytes[i]))
  }

  /** The replacement as the source makes it: the first zero byte from which no line end follows, and what comes after it,
      are taken away. */
  function Stripped(bytes: seq<Byte>, from: nat): (r: seq<Byte>)
    requires from <= |bytes|
    ensures from <= |r| <= |bytes| && r == bytes[..|r|]
    ensures |r| < |bytes| ==> EndsName(bytes, |r|)
    ensures forall k :: from <= k < |r| ==> !EndsName(bytes, k)
    decreases |bytes| - from
  {
    if from == |bytes| then bytes else if EndsName(bytes, from) then bytes[..from] else Stripped(bytes, from + 1)
  }

  predicate EndsName(bytes: seq<Byte>, k: nat)
    requires k < |bytes|
  {
    bytes[k] == 0 && 10 !in bytes[k + 1..] && 13 !in bytes[k + 1..]
  }

  /** The test on the name is that what is left of it is the name. */
  lemma NameExactly(bytes: seq<Byte>, name: string)
    requires forall i :: 0 <= i < |name| ==> 0 < name[i] as int
    ensures
      var left := Stripped(bytes, 0);
      NameIs(bytes, name) <==> |left| == |name| && forall i :: 0 <= i < |name| ==> left[i] == name[i] as int
  {
    if |name| < |bytes| { EndsExactly(bytes, |name|); }
  }

  lemma EndsExactly(bytes: seq<Byte>, k: nat)
    requires k < |bytes|
    ensures EndsName(bytes, k) <==> bytes[k] == 0 && forall i :: k < i < |bytes| ==> !IsLineEnd(bytes[i])
  {
    var rest := bytes[k + 1..];
    forall i | k < i < |bytes| ensures bytes[i] in rest { assert rest[i - k - 1] == bytes[i]; }
    assert forall i :: 0 <= i < |rest| ==> rest[i] == bytes[k + 1 + i];
  }

  // ---- The walk over the load commands ----

  datatype Found = OutOfRange | NoSegment | FlagsAt(off: nat)

  /** Where the walk from command `i` at `off` ends. */
  function Walk(s: seq<Byte>, i: nat, ncmds: nat, off: nat): Found
    decreases ncmds - i
  {
    if i >= ncmds then NoSegment else
    if !Readable(s, off) || !Readable(s, off + 4) then OutOfRange else
    if Word(s, off) == LC_SEGMENT_64 && NameIs(NameBytes(s, off), DATA_CONST) then
      if Readable(s, off + 68) then FlagsAt(off + 68) else OutOfRange
    else Walk(s, i + 1, ncmds, off + Word(s, off + 4))
  }

  predicate IsMachO(s: seq<Byte>) { |s| >= HEADER_SIZE && Word(s, 0) == MH_MAGIC_64 }

  function Target(s: seq<Byte>): Found {
    if !IsMachO(s) then NoSegment else Walk(s, 0, Word(s, 16), HEADER_SIZE)
  }

  /** Where the command `k` places after the one at `off` starts: each command tells its own size. */
  function Offset(s: seq<Byte>, off: nat, k: nat): Option<nat>
    decreases k
  {
    if k == 0 then Some(off) else if Readable(s, off + 4) then Offset(s, off + Word(s, off + 4), k - 1) else None
  }

  predicate IsSegment(s: seq<Byte>, p: nat)
    requires Readable(s, p)
  {
    Word(s, p) == 0x19 && NameIs(NameBytes(s, p), "__DATA_CONST")
  }

  /** The command can be read, and is or is not the segment. */
  predicate HitAt(s: seq<Byte>, off: nat, k: nat) {
    var p := Offset(s, off, k);
    p.Some? && Readable(s, p.value + 4) && IsSegment(s, p.value)
  }

  predicate MissAt(s: seq<Byte>, off: nat, k: nat) {
    var p := Offset(s, off, k);
    p.Some? && Readable(s, p.value + 4) && !IsSegment(s, p.value)
  }

  ghost predicate AllMiss(s: seq<Byte>, off: nat, n: nat) { forall k :: 0 <= k < n ==> MissAt(s, off, k) }

  /** The segment whose flags word is at `o` is the first hit among `n` commands. */
  ghost predicate FirstHit(s: seq<Byte>, off: nat, n: nat, o: nat) {
    exists k: nat :: k < n && FirstAt(s, off, k, o)
  }

  ghost predicate FirstAt(s: seq<Byte>, off: nat, k: nat, o: nat) {
    HitAt(s, off, k) && o == Offset(s, off, k).value + 68 && Readable(s, o) && AllMiss(s, off, k)
  }

  lemma AfterMiss(s: seq<Byte>, off: nat, n: nat)
    requires n > 0 && MissAt(s, off, 0)
    ensures
      var next := off + Word(s, off + 4);
      && (AllMiss(s, off, n) <==> AllMiss(s, next, n - 1))
      && forall o :: FirstHit(s, off, n, o) <==> FirstHit(s, next, n - 1, o)
  {
    var next := off + Word(s, off + 4);
    MissesShift(s, off, n);
    forall o ensures FirstHit(s, off, n, o) <==> FirstHit(s, next, n - 1, o) {
      if k: nat :| k < n && FirstAt(s, off, k, o) {
        MissesShift(s, off, k);
        assert FirstAt(s, next, k - 1, o);
      }
      if k: nat :| k < n - 1 && FirstAt(s, next, k, o) {
        MissesShift(s, off, k + 1);
        assert FirstAt(s, off, k + 1, o);
      }
    }
  }

  lemma MissesShift(s: seq<Byte>, off: nat, n: nat)
    requires MissAt(s, off, 0)
    ensures n > 0 ==> (AllMiss(s, off, n) <==> AllMiss(s, off + Word(s, off + 4), n - 1))
  {
    var next := off + Word(s, off + 4);
    if n > 0 && AllMiss(s, off, n) {
      forall k | 0 <= k < n - 1 ensures MissAt(s, next, k) { assert MissAt(s, off, k + 1); }
    }
    if n > 0 && AllMiss(s, next, n - 1) {
      forall k | 0 <= k < n ensures MissAt(s, off, k) { assert k > 0 ==> MissAt(s, next, k - 1); }
    }
  }

  /** The walk finds the first hit among as many commands as the header counts, and nothing exactly when all of them are
      misses; otherwise it leaves the file. */
  lemma {:induction false} WalkExactly(s: seq<Byte>, i: nat, ncmds: nat, off: nat)
    requires i <= ncmds
    ensures Walk(s, i, ncmds, off) == NoSegment <==> AllMiss(s, off, ncmds - i)
    ensures forall o :: Walk(s, i, ncmds, off) == FlagsAt(o) <==> FirstHit(s, off, ncmds - i, o)
    decreases ncmds - i
  {
    if i < ncmds && MissAt(s, off, 0) {
      WalkExactly(s, i + 1, ncmds, off + Word(s, off + 4));
      AfterMiss(s, off, ncmds - i);
    } else if i < ncmds {
      HitOrOut(s, i, ncmds, off);
    }
  }

  /** A file is walked exactly when it has a header with the magic word. */
  lemma TargetExactly(s: seq<Byte>)
    ensures Target(s) == NoSegment <==> (|s| >= 32 && Word(s, 0) == 0xfeed_facf ==> AllMiss(s, 32, Word(s, 16)))
    ensures forall o :: Target(s) == FlagsAt(o) <==> |s| >= 32 && Word(s, 0) == 0xfeed_facf && FirstHit(s, 32, Word(s, 16), o)
  {
    if IsMachO(s) { WalkExactly(s, 0, Word(s, 16), 32); }
  }

  lemma HitOrOut(s: seq<Byte>, i: nat, ncmds: nat, off: nat)
    requires i < ncmds && !MissAt(s, off, 0)
    ensures Walk(s, i, ncmds, off) != NoSegment && !AllMiss(s, off, ncmds - i)
    ensures forall o :: Walk(s, i, ncmds, off) == FlagsAt(o) <==> FirstHit(s, off, ncmds - i, o)
  {
    forall o, k: nat | FirstAt(s, off, k, o) ensures k == 0 {}
    forall o | Walk(s, i, ncmds, off) == FlagsAt(o) ensures FirstHit(s, off, ncmds - i, o) { assert FirstAt(s, off, 0, o); }
  }

  datatype Outcome = Changed | Unchanged | Failed

  /** The bitwise or of the source yields a signed word, so a flags word with its top bit set cannot be written. */
  function OutcomeOf(s: seq<Byte>): Outcome {
    match Target(s)
    case OutOfRange => Failed
    case NoSegment => Unchanged
    case FlagsAt(off) =>
      TargetReadable(s);
      if ReadOnlySet(Word(s, off)) then Unchanged
      else if Word(s, off) >= 0x8000_0000 then Failed else Changed
  }

  /** What the patch does to the bytes: nothing, or the one flags word with the bit set. */
  function Patched(s: seq<Byte>): seq<Byte> {
    TargetReadable(s);
    if OutcomeOf(s).Changed? then
      WithWord(s, Target(s).off, SetReadOnly(Word(s, Target(s).off)))
    else s
  }

  function WithWord(s: seq<Byte>, off: nat, w: nat): (t: seq<Byte>)
    requires Readable(s, off) && w < 0x1_0000_0000
    ensures |t| == |s|
  {
    s[off := w % 0x100][off + 1 := (w / 0x100) % 0x100][off + 2 := (w / 0x1_0000) % 0x100][off + 3 := w / 0x100_0000]
  }

  // ---- The walk only reads in front of what it finds ----

  lemma {:induction false} WalkForward(s: seq<Byte>, i: nat, ncmds: nat, off: nat)
    ensures Walk(s, i, ncmds, off).FlagsAt? ==>
              off + 68 <= Walk(s, i, ncmds, off).off && Readable(s, Walk(s, i, ncmds, off).off)
    decreases ncmds - i
  {
    if i < ncmds && Readable(s, off) && Readable(s, off + 4) {
      WalkForward(s, i + 1, ncmds, off + Word(s, off + 4));
    }
  }

  lemma TargetReadable(s: seq<Byte>)
    ensures Target(s).FlagsAt? ==> HEADER_SIZE + 68 <= Target(s).off && Readable(s, Target(s).off)
  {
    if IsMachO(s) { WalkForward(s, 0, Word(s, 16), HEADER_SIZE); }
  }

  predicate SameBut(s: seq<Byte>, t: seq<Byte>, at: nat) {
    |s| == |t| && forall k :: 0 <= k < |s| && k != at ==> t[k] == s[k]
  }

  lemma {:induction false} WalkSame(s: seq<Byte>, t: seq<Byte>, i: nat, ncmds: nat, off: nat)
    requires Walk(s, i, ncmds, off).FlagsAt? && SameBut(s, t, Walk(s, i, ncmds, off).off)
    ensures Walk(t, i, ncmds, off) == Walk(s, i, ncmds, off)
    decreases ncmds - i
  {
    WalkForward(s, i, ncmds, off);
    assert Word(t, off) == Word(s, off) && Word(t, off + 4) == Word(s, off + 4);
    assert NameBytes(t, off) == NameBytes(s, off);
    if !(Word(s, off) == LC_SEGMENT_64 && NameIs(NameBytes(s, off), DATA_CONST)) {
      WalkForward(s, i + 1, ncmds, off + Word(s, off + 4));
      WalkSame(s, t, i + 1, ncmds, off + Word(s, off + 4));
    }
  }

  // ---- What changes, and that it changes once ----

  lemma LowBit(s: seq<Byte>, off: nat)
    requires Readable(s, off)
    ensures ReadOnlySet(Word(s, off)) <==> (s[off] / SG_READ_ONLY) % 2 == 1
  {
    var a: int, b: int, c: int, d: int := s[off], s[off + 1], s[off + 2], s[off + 3];
    var h := b + 0x100 * c + 0x1_0000 * d;
    LowPart(Word(s, off), SG_READ_ONLY, a / SG_READ_ONLY + 16 * h, a % SG_READ_ONLY);
    LowPart(a / SG_READ_ONLY + 16 * h, 2, a / SG_READ_ONLY / 2 + 8 * h, a / SG_READ_ONLY % 2);
  }

  lemma LowByte(s: seq<Byte>, off: nat)
    requires Readable(s, off) && !ReadOnlySet(Word(s, off))
    ensures s[off] + SG_READ_ONLY < 256 && Word(s, off) + SG_READ_ONLY < 0x1_0000_0000
    ensures WithWord(s, off, Word(s, off) + SG_READ_ONLY) == s[off := s[off] + SG_READ_ONLY]
  {
    LowBit(s, off);
    var a: int, b: int, c: int, d: int := s[off], s[off + 1], s[off + 2], s[off + 3];
    BytesOf(a + SG_READ_ONLY, b, c, d);
  }

  lemma BytesOf(a: int, b: int, c: int, d: int)
    requires 0 <= a < 256 && 0 <= b < 256 && 0 <= c < 256 && 0 <= d < 256
    ensures
      var w := a + 0x100 * b + 0x1_0000 * c + 0x100_0000 * d;
      w % 0x100 == a && (w / 0x100) % 0x100 == b && (w / 0x1_0000) % 0x100 == c && w / 0x100_0000 == d
  {
    var w := a + 0x100 * b + 0x1_0000 * c + 0x100_0000 * d;
    LowPart(w, 0x100, b + 0x100 * c + 0x1_0000 * d, a);
    LowPart(w, 0x1_0000, c + 0x100 * d, a + 0x100 * b);
    LowPart(w, 0x100_0000, d, a + 0x100 * b + 0x1_0000 * c);
    LowPart(b + 0x100 * c + 0x1_0000 * d, 0x100, c + 0x100 * d, b);
    LowPart(c + 0x100 * d, 0x100, d, c);
  }

  lemma LowPart(w: int, base: int, high: int, low: int)
    requires base > 0 && 0 <= low < base && w == low + base * high
    ensures w / base == high && w % base == low
  {
    assert w == (w / base) * base + w % base;
    if w / base < high { Scales(w / base + 1, high, base); }
    if w / base > high { Scales(high + 1, w / base, base); }
  }

  /** At most one bit of the buffer changes: bit 4 of the first byte of the flags word, from clear to set. */
  lemma ChangesOneBit(s: seq<Byte>)
    ensures |Patched(s)| == |s|
    ensures !OutcomeOf(s).Changed? ==> Patched(s) == s
    ensures OutcomeOf(s).Changed? ==>
              var at := Target(s).off;
              && HEADER_SIZE + 68 <= at < |s| && SameBut(s, Patched(s), at)
              && (s[at] / SG_READ_ONLY) % 2 == 0 && Patched(s)[at] == s[at] + SG_READ_ONLY
  {
    TargetReadable(s);
    if OutcomeOf(s).Changed? {
      LowBit(s, Target(s).off);
      LowByte(s, Target(s).off);
    }
  }

  lemma SameTarget(s: seq<Byte>)
    ensures Target(Patched(s)) == Target(s)
  {
    ChangesOneBit(s);
    if OutcomeOf(s).Changed? {
      var t := Patched(s);
      assert Word(t, 0) == Word(s, 0) && Word(t, 16) == Word(s, 16);
      WalkSame(s, t, 0, Word(s, 16), HEADER_SIZE);
    }
  }

  lemma NowSet(s: seq<Byte>)
    requires OutcomeOf(s).Changed?
    ensures Readable(Patched(s), Target(s).off) && ReadOnlySet(Word(Patched(s), Target(s).off))
  {
    TargetReadable(s);
    ChangesOneBit(s);
    var at := Target(s).off;
    LowBit(s, at);
    LowBit(Patched(s), at);
    SixteenMore(s[at]);
  }

  lemma SixteenMore(b: int)
    requires 0 <= b && (b / SG_READ_ONLY) % 2 == 0
    ensures ((b + SG_READ_ONLY) / SG_READ_ONLY) % 2 == 1
  {}

  /** What the patch promises is a set bit in the flags word. It delivers exactly when the bit was set before or the word
      has its top bit clear: a word with the top bit set is refused, and the buffer left as it was. */
  lemma SetsExactlyWhen(s: seq<Byte>)
    requires Target(s).FlagsAt?
    ensures
      var off := Target(s).off;
      && Readable(s, off) && Readable(Patched(s), off)
      && (ReadOnlySet(Word(Patched(s), off)) <==> ReadOnlySet(Word(s, off)) || Word(s, off) < 0x8000_0000)
      && (OutcomeOf(s).Failed? <==> !ReadOnlySet(Word(Patched(s), off)))
  {
    TargetReadable(s);
    ChangesOneBit(s);
    if OutcomeOf(s).Changed? { NowSet(s); }
  }

  /** A header that announces one load command, and that command: the segment looked for, with flags of which only the
      highest byte may be set. */
  function OneSegment(top: Byte): seq<Byte> {
    seq(104, i requires 0 <= i < 104 => ByteAt(i, top))
  }

  function ByteAt(i: nat, top: Byte): Byte {
    match i
    case 0 => 0xcf case 1 => 0xfa case 2 => 0xed case 3 => 0xfe
    case 16 => 1
    case 32 => 0x19 case 36 => 72
    case 40 => 95 case 41 => 95 case 42 => 68 case 43 => 65 case 44 => 84 case 45 => 65
    case 46 => 95 case 47 => 67 case 48 => 79 case 49 => 78 case 50 => 83 case 51 => 84
    case 103 => top
    case _ => 0
  }

  lemma SegmentFound(top: Byte)
    ensures Target(OneSegment(top)) == FlagsAt(100) && Word(OneSegment(top), 100) == 0x100_0000 * top
  {
    var s := OneSegment(top);
    assert Word(s, 0) == MH_MAGIC_64 && Word(s, 16) == 1 && Word(s, HEADER_SIZE) == LC_SEGMENT_64;
    NameFound(top);
    assert Walk(s, 0, 1, HEADER_SIZE) == FlagsAt(100);
  }

  lemma NameFound(top: Byte)
    ensures NameIs(NameBytes(OneSegment(top), HEADER_SIZE), DATA_CONST)
  {
    var bytes := NameBytes(OneSegment(top), HEADER_SIZE);
    assert |bytes| == 16 && forall i :: 0 <= i < 16 ==> bytes[i] == ByteAt(40 + i, top);
  }

  /** The same file is patched with clear flags and refused with the top bit set. */
  lemma TopBitIsRefused()
    ensures OutcomeOf(OneSegment(0)) == Changed
    ensures OutcomeOf(OneSegment(0x80)) == Failed && Patched(OneSegment(0x80)) == OneSegment(0x80)
  {
    SegmentFound(0);
    SegmentFound(0x80);
  }

  /** A file whose segment is its second load command, after one of twenty-four bytes. */
  function SecondSegment(top: Byte): seq<Byte> {
    seq(128, i requires 0 <= i < 128 => SecondByteAt(i, top))
  }

  function SecondByteAt(i: nat, top: Byte): Byte
    requires i < 128
  {
    if i == 16 then 2 else if i < 32 then ByteAt(i, 0)
    else if i < 56 then (match i case 32 => 0x1b case 36 => 24 case _ => 0)
    else ByteAt(i - 24, top)
  }

  /** The walk goes on by each command's own size, wherever that leads. */
  lemma SecondIsFound(top: Byte)
    ensures Target(SecondSegment(top)) == FlagsAt(124)
    ensures OutcomeOf(SecondSegment(0)) == Changed && Patched(SecondSegment(0)) == SecondSegment(0)[124 := 0x10]
  {
    var s := SecondSegment(top);
    SecondWalk(top);
    SecondWalk(0);
    assert Word(SecondSegment(0), 124) == 0;
    ChangesOneBit(SecondSegment(0));
  }

  lemma SecondWalk(top: Byte)
    ensures Target(SecondSegment(top)) == FlagsAt(124)
  {
    var s := SecondSegment(top);
    assert Word(s, 0) == MH_MAGIC_64 && Word(s, 16) == 2;
    assert Word(s, 32) == 0x1b && Word(s, 36) == 24 && Word(s, 56) == LC_SEGMENT_64;
    SecondName(top);
    assert Walk(s, 1, 2, 56) == FlagsAt(124);
    assert Walk(s, 0, 2, HEADER_SIZE) == Walk(s, 1, 2, 56);
  }

  lemma SecondName(top: Byte)
    ensures NameIs(NameBytes(SecondSegment(top), 56), DATA_CONST)
  {
    var bytes := NameBytes(SecondSegment(top), 56);
    assert |bytes| == 16 && forall i :: 0 <= i < 16 ==> bytes[i] == ByteAt(40 + i, top);
  }

  /** A second run walks the same load commands to the same word, finds the bit set, and changes nothing. */
  lemma PatchIsIdempotent(s: seq<Byte>)
    ensures Target(Patched(s)) == Target(s)
    ensures OutcomeOf(Patched(s)) == if OutcomeOf(s).Changed? then Unchanged else OutcomeOf(s)
    ensures Patched(Patched(s)) == Patched(s)
  {
    SameTarget(s);
    if OutcomeOf(s).Changed? { NowSet(s); }
  }

  // ---- The patch itself ----

  method ReadWord(buf: array<Byte>, off: nat) returns (w: Option<nat>)
    ensures w == if Readable(buf[..], off) then Some(Word(buf[..], off)) else None
  {
    if off + 4 > buf.Length { return None; }
    var a: int, b: int, c: int, d: int := buf[off], buf[off + 1], buf[off + 2], buf[off + 3];
    return Some(a + 0x100 * b + 0x1_0000 * c + 0x100_0000 * d);
  }

  method WriteWord(buf: array<Byte>, off: nat, w: nat)
    requires Readable(buf[..], off) && w < 0x1_0000_0000
    modifies buf
    ensures buf[..] == WithWord(old(buf[..]), off, w)
  {
    buf[off] := w % 0x100;
    buf[off + 1] := (w / 0x100) % 0x100;
    buf[off + 2] := (w / 0x1_0000) % 0x100;
    buf[off + 3] := w / 0x100_0000;
  }

  method PatchSegmentFlag(buf: array<Byte>) returns (r: Outcome)
    modifies buf
    ensures r == OutcomeOf(old(buf[..])) && buf[..] == Patched(old(buf[..]))
  {
    if buf.Length < HEADER_SIZE { return Unchanged; }
    var magic := ReadWord(buf, 0);
    if magic.value != MH_MAGIC_64 { return Unchanged; }
    var ncmds := ReadWord(buf, 16);
    var found := FindFlags(buf, ncmds.value);
    match found
    case OutOfRange => return Failed;
    case NoSegment => return Unchanged;
    case FlagsAt(off) =>
      TargetReadable(buf[..]);
      var flags := ReadWord(buf, off);
      if ReadOnlySet(flags.value) { return Unchanged; }
      if flags.value >= 0x8000_0000 { return Failed; }
      WriteWord(buf, off, flags.value + SG_READ_ONLY);
      return Changed;
  }

  /** The loop over the load commands. */
  method FindFlags(buf: array<Byte>, ncmds: nat) returns (r: Found)
    ensures r == Walk(buf[..], 0, ncmds, HEADER_SIZE)
  {
    var off := HEADER_SIZE;
    for i := 0 to ncmds
      invariant off >= 0 && Walk(buf[..], i, ncmds, off) == Walk(buf[..], 0, ncmds, HEADER_SIZE)
    {
      var cmd := ReadWord(buf, off);
      if cmd.None? { return OutOfRange; }
      var cmdsize := ReadWord(buf, off + 4);
      if cmdsize.None? { return OutOfRange; }
      if cmd.value == LC_SEGMENT_64 {
        var from, to := Min(off + 8, buf.Length), Min(off + 24, buf.Length);
        assert buf[from..to] == NameBytes(buf[..], off);
        if NameIs(buf[from..to], DATA_CONST) {
          return if off + 72 <= buf.Length then FlagsAt(off + 68) else OutOfRange;
        }
      }
      off := off + cmdsize.value;
    }
    return NoSegment;
  }
}
