/** Splitting a server-sent event stream into frames as chunks arrive, with a bound on what is retained. */
module SseSplitter {
  import opened Prelude

  // ---- Sizes ----

  function Bytes(c: char): (n: nat)
    ensures 1 <= n <= 4
  {
    if c < '\U{80}' then 1 else if c < '\U{800}' then 2 else if c < '\U{10000}' then 3 else 4
  }

  /** The length of the text encoded as UTF-8. */
  function Size(s: string): nat {
    if s == "" then 0 else Size(s[..|s| - 1]) + Bytes(s[|s| - 1])
  }

  /** How many bits of a code point an encoding of `n` bytes carries. */
  function Payload(n: nat): nat { if n <= 1 then 7 else 5 * n + 1 }

  /** A character takes the fewest bytes whose payload holds its code point. */
  lemma BytesExactly(c: char)
    ensures (c as int) < Two(Payload(Bytes(c)))
    ensures Bytes(c) > 1 ==> c as int >= Two(Payload(Bytes(c) - 1))
  {
    assert Two(7) == 128 && Two(11) == 2048 && Two(16) == 65536 && Two(21) == 2097152;
  }

  lemma {:induction false} SizeOfConcat(a: string, b: string)
    ensures Size(a + b) == Size(a) + Size(b)
  {
    if b == "" {
      assert a + b == a;
    } else {
      assert (a + b)[..|a + b| - 1] == a + b[..|b| - 1];
      SizeOfConcat(a, b[..|b| - 1]);
    }
  }

  lemma {:induction false} SizeOfPrefix(p: string, s: string)
    requires p <= s
    ensures Size(p) <= Size(s)
    decreases |s|
  {
    if p != s { SizeOfPrefix(p, s[..|s| - 1]); } else { assert p == s; }
  }

  // ---- Splitting ----

  predicate SeparatorAt(s: string, k: nat) { k + 1 < |s| && s[k] == '\n' && s[k + 1] == '\n' }

  /** The first blank line, as `indexOf` finds it. */
  function FindSeparator(s: string, from: nat): (r: Option<nat>)
    ensures r.Some? ==> from <= r.value && SeparatorAt(s, r.value)
    ensures forall k :: from <= k && (r.Some? ==> k < r.value) ==> !SeparatorAt(s, k)
    decreases |s| - from
  {
    if from >= |s| then None
    else if SeparatorAt(s, from) then Some(from)
    else FindSeparator(s, from + 1)
  }

  datatype Split = Split(frames: seq<string>, rest: string)

  /** The complete frames of a text, in order, and what follows the last separator. */
  function Drain(s: string): (r: Split)
    ensures FindSeparator(r.rest, 0).None?
    decreases |s|
  {
    match FindSeparator(s, 0)
    case None => Split([], s)
    case Some(k) => var later := Drain(s[k + 2..]); Split([s[..k]] + later.frames, later.rest)
  }

  lemma FirstSeparator(s: string, k: nat)
    requires SeparatorAt(s, k) && forall j :: 0 <= j < k ==> !SeparatorAt(s, j)
    ensures FindSeparator(s, 0) == Some(k)
  {}

  lemma NoSeparator(s: string)
    requires forall j :: 0 <= j ==> !SeparatorAt(s, j)
    ensures FindSeparator(s, 0).None?
  {}

  lemma DrainAt(s: string, k: nat)
    requires FindSeparator(s, 0) == Some(k)
    ensures Drain(s) == Split([s[..k]] + Drain(s[k + 2..]).frames, Drain(s[k + 2..]).rest)
  {}

  lemma SeparatorKept(a: string, b: string, k: nat)
    requires FindSeparator(a, 0) == Some(k)
    ensures FindSeparator(a + b, 0) == Some(k) && (a + b)[..k] == a[..k] && (a + b)[k + 2..] == a[k + 2..] + b
  {
    var s := a + b;
    assert SeparatorAt(s, k);
    forall j | 0 <= j < k ensures !SeparatorAt(s, j) { assert !SeparatorAt(a, j); }
    FirstSeparator(s, k);
  }

  /** Draining what came so far and then going on is draining everything at once. */
  lemma {:induction false} DrainConcat(a: string, b: string)
    ensures
      var later := Drain(Drain(a).rest + b);
      Drain(a + b).frames == Drain(a).frames + later.frames && Drain(a + b).rest == later.rest
    decreases |a|
  {
    if FindSeparator(a, 0).Some? {
      var k := FindSeparator(a, 0).value;
      SeparatorKept(a, b, k);
      DrainAt(a, k);
      DrainAt(a + b, k);
      var tail := a[k + 2..];
      DrainConcat(tail, b);
      Associates([a[..k]], Drain(tail).frames, Drain(Drain(tail).rest + b).frames);
    } else {
      assert Drain(a) == Split([], a);
    }
  }

  /** The frames with a blank line after each, and the rest, are the text. */
  lemma {:induction false} DrainJoins(s: string)
    ensures s == Terminated(Drain(s).frames) + Drain(s).rest
    decreases |s|
  {
    if FindSeparator(s, 0).Some? {
      var k := FindSeparator(s, 0).value;
      var head, tail := s[..k], s[k + 2..];
      DrainAt(s, k);
      DrainJoins(tail);
      CutOut(s, k);
      TerminatedFirst(head, Drain(tail).frames);
      Associates(head + "\n\n", Terminated(Drain(tail).frames), Drain(tail).rest);
    } else {
      assert s == "" + s;
    }
  }

  lemma CutOut(s: string, k: nat)
    requires SeparatorAt(s, k)
    ensures s == s[..k] + "\n\n" + s[k + 2..]
  {}

  lemma TerminatedFirst(frame: string, frames: seq<string>)
    ensures Terminated([frame] + frames) == frame + "\n\n" + Terminated(frames)
  {
    assert ([frame] + frames)[1..] == frames;
  }

  ghost predicate Unseparated(s: string) { forall k :: !SeparatorAt(s, k) }

  /** No blank line is left in a frame or in the rest. */
  lemma {:induction false} DrainSeparates(s: string)
    ensures Unseparated(Drain(s).rest) && forall i :: 0 <= i < |Drain(s).frames| ==> Unseparated(Drain(s).frames[i])
    decreases |s|
  {
    if FindSeparator(s, 0).Some? {
      var k := FindSeparator(s, 0).value;
      DrainAt(s, k);
      DrainSeparates(s[k + 2..]);
      assert forall j: nat :: SeparatorAt(s[..k], j) ==> SeparatorAt(s, j);
    }
  }

  function Terminated(frames: seq<string>): string {
    if frames == [] then "" else frames[0] + "\n\n" + Terminated(frames[1..])
  }

  // ---- Payloads ----

  function Lines(s: string): seq<string> { LinesFrom(s, "") }

  function LinesFrom(s: string, line: string): seq<string> {
    if s == "" then [line]
    else if s[0] == '\n' then [line] + LinesFrom(s[1..], "")
    else LinesFrom(s[1..], line + [s[0]])
  }

  function LineData(line: string): seq<string> {
    if "data:" <= line then [Trim(line[5..])] else []
  }

  function Unlines(lines: seq<string>): string
    requires lines != []
  {
    if |lines| == 1 then lines[0] else lines[0] + "\n" + Unlines(lines[1..])
  }

  predicate OneLine(s: string) { '\n' !in s }

  lemma {:induction false} LinesFromJoin(s: string, line: string)
    requires OneLine(line)
    ensures LinesFrom(s, line) != [] && Unlines(LinesFrom(s, line)) == line + s
    ensures forall i :: 0 <= i < |LinesFrom(s, line)| ==> OneLine(LinesFrom(s, line)[i])
    decreases |s|
  {
    if s == "" {
      assert line + s == line;
    } else if s[0] == '\n' {
      LinesFromJoin(s[1..], "");
      var rest := LinesFrom(s[1..], "");
      assert ([line] + rest)[1..] == rest && "" + s[1..] == s[1..];
      assert line + "\n" + s[1..] == line + s;
    } else {
      LinesFromJoin(s[1..], line + [s[0]]);
      assert line + [s[0]] + s[1..] == line + s;
    }
  }

  /** The lines of a frame are what its newlines separate. */
  lemma LinesJoin(s: string)
    ensures Lines(s) != [] && Unlines(Lines(s)) == s
    ensures forall i :: 0 <= i < |Lines(s)| ==> OneLine(Lines(s)[i])
  {
    LinesFromJoin(s, "");
    assert "" + s == s;
  }

  lemma {:induction false} LinesFromLine(s: string, line: string)
    requires OneLine(s)
    ensures LinesFrom(s, line) == [line + s]
    decreases |s|
  {
    if s == "" {
      assert line + s == line;
    } else {
      assert s[0] in s && forall c :: c in s[1..] ==> c in s;
      LinesFromLine(s[1..], line + [s[0]]);
      assert line + [s[0]] + s[1..] == line + s;
    }
  }

  /** A frame of one line dispatches what follows `data:`, without the white space around it, and any other nothing. */
  lemma OneLinePayload(before: string, data: string, after: string, other: string)
    requires OneLine(before) && OneLine(data) && OneLine(after) && AllSpaces(before) && Tight(data) && AllSpaces(after)
    requires OneLine(other) && !("data:" <= other)
    ensures DataOf(Lines("data:" + (before + data + after))) == [data] && DataOf(Lines(other)) == []
  {
    var line := "data:" + (before + data + after);
    LinesFromLine(line, "");
    LinesFromLine(other, "");
    assert "" + line == line && "" + other == other;
    assert line[5..] == before + data + after;
    TrimExactly(before, data, after);
    assert [line][..0] == [] && [other][..0] == [];
    assert DataOf([line]) == DataOf([]) + LineData(line) && DataOf([other]) == DataOf([]) + LineData(other);
  }

  function DataOf(lines: seq<string>): seq<string> {
    if lines == [] then [] else DataOf(lines[..|lines| - 1]) + LineData(lines[|lines| - 1])
  }

  function PayloadsOf(frames: seq<string>): seq<string> {
    if frames == [] then [] else PayloadsOf(frames[..|frames| - 1]) + DataOf(Lines(frames[|frames| - 1]))
  }

  lemma PayloadsSnoc(frames: seq<string>, frame: string)
    ensures PayloadsOf(frames + [frame]) == PayloadsOf(frames) + DataOf(Lines(frame))
  {
    assert (frames + [frame])[..|frames|] == frames;
  }

  lemma {:induction false} PayloadsConcat(a: seq<string>, b: seq<string>)
    ensures PayloadsOf(a + b) == PayloadsOf(a) + PayloadsOf(b)
  {
    if b == [] {
      assert a + b == a;
    } else {
      var n := |b| - 1;
      PayloadsConcat(a, b[..n]);
      assert b == b[..n] + [b[n]];
      Associates(a, b[..n], [b[n]]);
      PayloadsSnoc(a + b[..n], b[n]);
      PayloadsSnoc(b[..n], b[n]);
      Associates(PayloadsOf(a), PayloadsOf(b[..n]), DataOf(Lines(b[n])));
    }
  }

  // ---- The reader ----

  predicate FramesFit(frames: seq<string>, max: nat) { forall i :: 0 <= i < |frames| ==> Size(frames[i]) <= max }

  datatype Reader = Reader(buffer: string, dispatched: seq<string>, failed: bool)

  const Start := Reader("", [], false)

  /** The frames up to the first that is too large. */
  function Fitting(frames: seq<string>, max: nat): seq<string> {
    if frames == [] || Size(frames[0]) > max then [] else [frames[0]] + Fitting(frames[1..], max)
  }

  function Read(r: Reader, chunk: string, max: nat): Reader {
    if r.failed then r else
    var split := Drain(r.buffer + chunk);
    var fitting := Fitting(split.frames, max);
    if |fitting| < |split.frames| then
      r.(buffer := AfterFrames(r.buffer + chunk, |fitting| + 1), dispatched := r.dispatched + PayloadsOf(fitting), failed := true)
    else Reader(split.rest, r.dispatched + PayloadsOf(split.frames), Size(split.rest) > max)
  }

  /** What is left once `n` frames are cut off. */
  function AfterFrames(s: string, n: nat): string {
    if n == 0 || FindSeparator(s, 0).None? then s else AfterFrames(s[FindSeparator(s, 0).value + 2..], n - 1)
  }

  function ReadAll(chunks: seq<string>, max: nat): Reader {
    if chunks == [] then Start else Read(ReadAll(chunks[..|chunks| - 1], max), chunks[|chunks| - 1], max)
  }

  function Joined(chunks: seq<string>): string {
    if chunks == [] then "" else Joined(chunks[..|chunks| - 1]) + chunks[|chunks| - 1]
  }

  lemma {:induction false} FittingAll(frames: seq<string>, max: nat)
    ensures |Fitting(frames, max)| <= |frames|
    ensures |Fitting(frames, max)| == |frames| <==> FramesFit(frames, max)
  {
    if frames != [] {
      FittingAll(frames[1..], max);
      assert forall i :: 0 < i < |frames| ==> frames[i] == frames[1..][i - 1];
      assert forall i :: 0 <= i < |frames[1..]| ==> frames[1..][i] == frames[i + 1];
    }
  }

  /** Nothing retained after a read was ever too large. */
  predicate RestsFit(chunks: seq<string>, max: nat) {
    chunks == [] || (RestsFit(chunks[..|chunks| - 1], max) && Size(Drain(Joined(chunks)).rest) <= max)
  }

  predicate Survives(chunks: seq<string>, max: nat) { FramesFit(Drain(Joined(chunks)).frames, max) && RestsFit(chunks, max) }

  lemma FramesFitConcat(a: seq<string>, b: seq<string>, max: nat)
    ensures FramesFit(a + b, max) <==> FramesFit(a, max) && FramesFit(b, max)
  {
    assert forall i :: 0 <= i < |a| ==> (a + b)[i] == a[i];
    assert forall i :: 0 <= i < |b| ==> (a + b)[|a| + i] == b[i];
  }

  /** What is dispatched depends only on the text, not on where the chunks divide it; a reader fails exactly when
      some frame or some retained remainder is too large. */
  lemma {:induction false} ReadsTheWhole(chunks: seq<string>, max: nat)
    ensures ReadAll(chunks, max).failed <==> !Survives(chunks, max)
    ensures Survives(chunks, max) ==>
              ReadAll(chunks, max) == Reader(Drain(Joined(chunks)).rest, PayloadsOf(Drain(Joined(chunks)).frames), false)
  {
    if chunks == [] {
      assert Drain("") == Split([], "");
    } else {
      var n := |chunks| - 1;
      var init, last := chunks[..n], chunks[n];
      ReadsTheWhole(init, max);
      var before := Drain(Joined(init));
      var split := Drain(before.rest + last);
      DrainConcat(Joined(init), last);
      FramesFitConcat(before.frames, split.frames, max);
      PayloadsConcat(before.frames, split.frames);
      FittingAll(split.frames, max);
    }
  }

  // ---- Every chunking ----

  /** Room for the newline that may arrive before its twin. */
  predicate EveryFrameShort(frames: seq<string>, max: nat) { forall i :: 0 <= i < |frames| ==> Size(frames[i]) < max }

  /** What a prefix leaves behind fits inside the tail of the whole, or inside one of its frames and a newline. */
  ghost predicate Inside(rest: string, whole: Split) {
    rest <= whole.rest || exists i :: 0 <= i < |whole.frames| && rest <= whole.frames[i] + "\n"
  }

  lemma ShortPrefix(p: string, s: string, bound: nat)
    requires p <= s && |p| <= bound + 1 && forall j :: 0 <= j < bound ==> !SeparatorAt(s, j)
    ensures FindSeparator(p, 0).None? && Drain(p).rest == p
  {
    forall j | 0 <= j ensures !SeparatorAt(p, j) { assert j < bound ==> !SeparatorAt(s, j); }
    NoSeparator(p);
  }

  lemma InsideLater(rest: string, frame: string, later: Split)
    requires Inside(rest, later)
    ensures Inside(rest, Split([frame] + later.frames, later.rest))
  {
    if i :| 0 <= i < |later.frames| && rest <= later.frames[i] + "\n" {
      assert ([frame] + later.frames)[i + 1] == later.frames[i];
    }
  }

  lemma PrefixSeparator(p: string, s: string, k: nat)
    requires p <= s && FindSeparator(s, 0) == Some(k) && |p| >= k + 2
    ensures FindSeparator(p, 0) == Some(k) && p[k + 2..] <= s[k + 2..]
  {
    forall j | 0 <= j < k ensures !SeparatorAt(p, j) { assert !SeparatorAt(s, j); }
    FirstSeparator(p, k);
  }

  lemma {:induction false} RestOfPrefix(p: string, s: string)
    requires p <= s
    ensures Inside(Drain(p).rest, Drain(s))
    decreases |s|
  {
    if FindSeparator(s, 0).None? {
      ShortPrefix(p, s, |s|);
    } else {
      var k := FindSeparator(s, 0).value;
      DrainAt(s, k);
      if |p| <= k + 1 {
        ShortPrefix(p, s, k);
        assert p <= s[..k] + "\n";
        assert Drain(s).frames[0] == s[..k];
      } else {
        PrefixSeparator(p, s, k);
        DrainAt(p, k);
        RestOfPrefix(p[k + 2..], s[k + 2..]);
        InsideLater(Drain(p[k + 2..]).rest, s[..k], Drain(s[k + 2..]));
      }
    }
  }

  /** Some prefix of the text leaves exactly frame `i` and one newline behind. */
  lemma {:induction false} PrefixEndingFrame(s: string, i: nat) returns (p: string)
    requires i < |Drain(s).frames|
    ensures p <= s && Drain(p).rest == Drain(s).frames[i] + "\n"
    decreases |s|
  {
    var k := FindSeparator(s, 0).value;
    if i == 0 {
      p := s[..k + 1];
      forall j | 0 <= j ensures !SeparatorAt(p, j) { assert j < k ==> !SeparatorAt(s, j); }
      NoSeparator(p);
    } else {
      var q := PrefixEndingFrame(s[k + 2..], i - 1);
      p := s[..k + 2] + q;
      assert SeparatorAt(p, k);
      forall j | 0 <= j < k ensures !SeparatorAt(p, j) { assert !SeparatorAt(s, j); }
      FirstSeparator(p, k);
      assert p[k + 2..] == q;
    }
  }

  /** A text is read however it is divided into chunks exactly when every frame is shorter than the bound and the
      tail is within it; a frame of exactly the bound is read or refused depending on where a chunk ends. */
  lemma EveryChunkingExactly(s: string, max: nat)
    ensures (forall chunks :: Joined(chunks) == s ==> !ReadAll(chunks, max).failed)
            <==> EveryFrameShort(Drain(s).frames, max) && Size(Drain(s).rest) <= max
  {
    if EveryFrameShort(Drain(s).frames, max) && Size(Drain(s).rest) <= max {
      forall chunks: seq<string> | Joined(chunks) == s ensures !ReadAll(chunks, max).failed {
        ShortSurvives(chunks, max);
        ReadsTheWhole(chunks, max);
      }
    } else {
      var chunks := LongFails(s, max);
    }
  }

  lemma InsideFits(rest: string, whole: Split, max: nat)
    requires Inside(rest, whole) && EveryFrameShort(whole.frames, max) && Size(whole.rest) <= max
    ensures Size(rest) <= max
  {
    if rest <= whole.rest {
      SizeOfPrefix(rest, whole.rest);
    } else {
      var j :| 0 <= j < |whole.frames| && rest <= whole.frames[j] + "\n";
      SizeOfPrefix(rest, whole.frames[j] + "\n");
    }
  }

  lemma {:induction false} ShortRestsFit(chunks: seq<string>, s: string, max: nat)
    requires Joined(chunks) <= s && EveryFrameShort(Drain(s).frames, max) && Size(Drain(s).rest) <= max
    ensures RestsFit(chunks, max)
  {
    if chunks != [] {
      ShortRestsFit(chunks[..|chunks| - 1], s, max);
      RestOfPrefix(Joined(chunks), s);
      InsideFits(Drain(Joined(chunks)).rest, Drain(s), max);
    }
  }

  lemma ShortSurvives(chunks: seq<string>, max: nat)
    requires EveryFrameShort(Drain(Joined(chunks)).frames, max) && Size(Drain(Joined(chunks)).rest) <= max
    ensures Survives(chunks, max)
  {
    ShortRestsFit(chunks, Joined(chunks), max);
  }

  /** Reading `p` and then the rest fails when `p` already leaves too much behind. */
  lemma StopsAfter(p: string, q: string, max: nat)
    requires Size(Drain(p).rest) > max
    ensures Joined([p, q]) == p + q && ReadAll([p, q], max).failed
  {
    TwoChunks(p, q);
    assert [p, q][..1] == [p];
    assert !RestsFit([p], max);
    ReadsTheWhole([p, q], max);
  }

  lemma LongFails(s: string, max: nat) returns (chunks: seq<string>)
    requires !(EveryFrameShort(Drain(s).frames, max) && Size(Drain(s).rest) <= max)
    ensures Joined(chunks) == s && ReadAll(chunks, max).failed
  {
    var p := OverlongPrefix(s, max);
    var q := s[|p|..];
    assert p + q == s;
    StopsAfter(p, q, max);
    chunks := [p, q];
  }

  lemma OverlongPrefix(s: string, max: nat) returns (p: string)
    requires !(EveryFrameShort(Drain(s).frames, max) && Size(Drain(s).rest) <= max)
    ensures p <= s && Size(Drain(p).rest) > max
  {
    if Size(Drain(s).rest) > max {
      p := s;
    } else {
      var i :| 0 <= i < |Drain(s).frames| && Size(Drain(s).frames[i]) >= max;
      p := PrefixEndingFrame(s, i);
    }
  }

  lemma TwoChunks(a: string, b: string)
    ensures Joined([a]) == a && Joined([a, b]) == a + b
  {
    assert [a][..0] == [] && [a, b][..1] == [a];
  }

  // ---- The pump, updating its buffer in place ----

  class Pump {
    const maxFrameBytes: nat
    var buffer: string
    var dispatched: seq<string>
    var failed: bool

    ghost function View(): Reader
      reads this
    {
      Reader(buffer, dispatched, failed)
    }

    constructor (maxFrameBytes: nat)
      ensures View() == Start && this.maxFrameBytes == maxFrameBytes
    {
      this.maxFrameBytes := maxFrameBytes;
      buffer, dispatched, failed := "", [], false;
    }

    /** One read. Unless it fails, what is retained holds no separator and is within the bound. */
    method OnChunk(chunk: string)
      requires !failed
      modifies this
      ensures View() == Read(old(View()), chunk, maxFrameBytes)
      ensures !failed ==> FindSeparator(buffer, 0).None? && Size(buffer) <= maxFrameBytes
    {
      buffer := buffer + chunk;
      ghost var all := Drain(buffer);
      FittingAll(all.frames, maxFrameBytes);
      TakeFrames();
      if !failed {
        FittingIsAll(all.frames, maxFrameBytes);
        failed := Size(buffer) > maxFrameBytes;
      }
    }

    method TakeFrames()
      requires !failed
      modifies this
      ensures Taken(old(buffer), old(dispatched), buffer, dispatched, failed, maxFrameBytes)
    {
      ghost var s, done := buffer, 0;
      var sep := FindSeparator(buffer, 0);
      while sep.Some?
        invariant sep == FindSeparator(buffer, 0) && !failed && Cut(s, done, buffer)
        invariant Handed(Drain(s).frames, done, old(dispatched), dispatched, maxFrameBytes)
        decreases |buffer|
      {
        var frame := buffer[..sep.value];
        CutNext(s, done, buffer, sep.value);
        buffer := buffer[sep.value + 2..];
        if Size(frame) > maxFrameBytes {
          TakenUpTo(s, done, old(dispatched), buffer, dispatched, maxFrameBytes);
          failed := true;
          return;
        }
        HandedNext(Drain(s).frames, done, old(dispatched), dispatched, maxFrameBytes);
        Dispatch(frame);
        done := done + 1;
        sep := FindSeparator(buffer, 0);
      }
      CutDone(s, done, buffer);
      TakenAll(s, old(dispatched), buffer, dispatched, maxFrameBytes);
    }

    method Dispatch(frame: string)
      modifies this`dispatched
      ensures dispatched == old(dispatched) + DataOf(Lines(frame))
    {
      var lines := Lines(frame);
      for i := 0 to |lines|
        invariant dispatched == old(dispatched) + DataOf(lines[..i])
      {
        assert lines[..i + 1][..i] == lines[..i];
        if "data:" <= lines[i] {
          dispatched := dispatched + [Trim(lines[i][5..])];
        }
      }
      assert lines[..|lines|] == lines;
    }
  }

  /** The first `n` frames fit and their payloads, and nothing else, were dispatched since `start`. */
  ghost predicate Handed(frames: seq<string>, n: nat, start: seq<string>, dispatched: seq<string>, max: nat) {
    n <= |frames| && FramesFit(frames[..n], max) && dispatched == start + PayloadsOf(frames[..n])
  }

  lemma HandedNext(frames: seq<string>, n: nat, start: seq<string>, dispatched: seq<string>, max: nat)
    requires n < |frames| && Handed(frames, n, start, dispatched, max) && Size(frames[n]) <= max
    ensures Handed(frames, n + 1, start, dispatched + DataOf(Lines(frames[n])), max)
  {
    assert frames[..n + 1] == frames[..n] + [frames[n]];
    PayloadsSnoc(frames[..n], frames[n]);
    Associates(start, PayloadsOf(frames[..n]), DataOf(Lines(frames[n])));
    FramesFitConcat(frames[..n], [frames[n]], max);
  }

  lemma HandedAll(frames: seq<string>, start: seq<string>, dispatched: seq<string>, max: nat)
    requires Handed(frames, |frames|, start, dispatched, max)
    ensures Fitting(frames, max) == frames && dispatched == start + PayloadsOf(frames)
  {
    assert frames[..|frames|] == frames;
    FittingIsAll(frames, max);
  }

  /** The effect of taking the complete frames out of `s`: those that fit were dispatched, and the first that does not
      was cut off and ended the stream. */
  ghost predicate Taken(s: string, start: seq<string>, buffer: string, dispatched: seq<string>, failed: bool, max: nat) {
    var all := Drain(s);
    var fitting := Fitting(all.frames, max);
    && dispatched == start + PayloadsOf(fitting)
    && failed == (|fitting| < |all.frames|)
    && buffer == (if failed then AfterFrames(s, |fitting| + 1) else all.rest)
  }

  lemma TakenUpTo(s: string, n: nat, start: seq<string>, buffer: string, dispatched: seq<string>, max: nat)
    requires n < |Drain(s).frames| && buffer == AfterFrames(s, n + 1)
    requires Handed(Drain(s).frames, n, start, dispatched, max) && Size(Drain(s).frames[n]) > max
    ensures Taken(s, start, buffer, dispatched, true, max)
  {
    FittingStops(Drain(s).frames, n, max);
  }

  lemma TakenAll(s: string, start: seq<string>, buffer: string, dispatched: seq<string>, max: nat)
    requires Handed(Drain(s).frames, |Drain(s).frames|, start, dispatched, max) && buffer == Drain(s).rest
    ensures Taken(s, start, buffer, dispatched, false, max)
  {
    HandedAll(Drain(s).frames, start, dispatched, max);
  }

  lemma {:induction false} FittingIsAll(frames: seq<string>, max: nat)
    requires FramesFit(frames, max)
    ensures Fitting(frames, max) == frames
  {
    if frames != [] {
      assert forall i :: 0 <= i < |frames[1..]| ==> frames[1..][i] == frames[i + 1];
      FittingIsAll(frames[1..], max);
    }
  }

  /** After `n` frames of `s` were cut off, `buffer` is what is left. */
  ghost predicate Cut(s: string, n: nat, buffer: string) {
    && n <= |Drain(s).frames| && buffer == AfterFrames(s, n)
    && Drain(buffer) == Split(Drain(s).frames[n..], Drain(s).rest)
  }

  lemma CutNext(s: string, n: nat, buffer: string, k: nat)
    requires Cut(s, n, buffer) && FindSeparator(buffer, 0) == Some(k)
    ensures n < |Drain(s).frames| && buffer[..k] == Drain(s).frames[n] && Cut(s, n + 1, buffer[k + 2..])
  {
    DrainAt(buffer, k);
    AfterOneMore(s, n);
    var frames := Drain(s).frames;
    assert Drain(buffer).frames[0] == frames[n..][0] == frames[n];
    assert Drain(buffer).frames[1..] == frames[n..][1..] == frames[n + 1..];
    assert Drain(buffer).frames[1..] == Drain(buffer[k + 2..]).frames;
  }

  lemma CutDone(s: string, n: nat, buffer: string)
    requires Cut(s, n, buffer) && FindSeparator(buffer, 0).None?
    ensures n == |Drain(s).frames| && buffer == Drain(s).rest
  {
    assert Drain(buffer).frames == [];
  }

  lemma {:induction false} AfterOneMore(s: string, n: nat)
    requires FindSeparator(AfterFrames(s, n), 0).Some?
    ensures AfterFrames(s, n + 1) == AfterFrames(s, n)[FindSeparator(AfterFrames(s, n), 0).value + 2..]
    decreases n
  {
    if n > 0 { AfterOneMore(s[FindSeparator(s, 0).value + 2..], n - 1); }
  }

  lemma {:induction false} FittingStops(frames: seq<string>, n: nat, max: nat)
    requires n < |frames| && FramesFit(frames[..n], max) && Size(frames[n]) > max
    ensures Fitting(frames, max) == frames[..n]
  {
    if n > 0 {
      assert frames[..n][0] == frames[0];
      assert frames[1..][..n - 1] == frames[..n][1..] && frames[1..][n - 1] == frames[n];
      FittingStops(frames[1..], n - 1, max);
    }
  }
}
