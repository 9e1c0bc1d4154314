// The kernel log ring (kernel/duneos_kernel/src/klog.c) and its reconstruction
// from a raw dump (tools/dbt/qemu.py). The circular buffer refines a log that
// forgets nothing: a reader sees contiguous pieces of that log.

module Klog {

  const RING_SIZE := 16384

  function Oldest(total: nat): nat { if total > RING_SIZE then total - RING_SIZE else 0 }
  function Min(a: nat, b: nat): nat { if a < b then a else b }

  // ----- Reading, against the whole log ----------------------------------------------

  // What klog_ring_read gives a reader at `pos`: the bytes, and where it is then.
  function ReadLog(log: seq<char>, pos: nat, max: nat): (r: (seq<char>, nat))
    ensures pos <= r.1
  {
    if max == 0 then ([], pos)
    else
      var p := if pos < Oldest(|log|) then Oldest(|log|) else pos;
      var n := Min(if |log| > p then |log| - p else 0, max);
      (if n == 0 then [] else log[p..p + n], p + n)
  }

  datatype Event = Append(data: seq<char>) | Read(max: nat)

  // A run of appends and reads: the log, the reader's position, what it has read.
  datatype Run = Run(log: seq<char>, pos: nat, got: seq<char>)

  function Step(s: Run, e: Event): Run {
    match e
    case Append(data) => s.(log := s.log + data)
    case Read(max) =>
      var (piece, pos) := ReadLog(s.log, s.pos, max);
      s.(pos := pos, got := s.got + piece)
  }

  function After(s: Run, es: seq<Event>): Run
    decreases |es|
  {
    if es == [] then s else After(Step(s, es[0]), es[1..])
  }

  // No read that asks for bytes finds the reader more than the ring size behind.
  ghost predicate KeepsUp(s: Run, es: seq<Event>)
    decreases |es|
  {
    es != [] ==>
      (es[0].Read? && es[0].max > 0 ==> |s.log| - s.pos <= 16384) && KeepsUp(Step(s, es[0]), es[1..])
  }

  // What has been read is the log between where the reader began and where it is.
  ghost predicate Seen(s: Run, from: nat) {
    from <= s.pos <= |s.log| && s.got == s.log[from..s.pos]
  }

  lemma SeenStep(s: Run, e: Event, from: nat)
    requires Seen(s, from) && (e.Read? && e.max > 0 ==> s.pos >= Oldest(|s.log|))
    ensures Seen(Step(s, e), from)
  {
    match e
    case Append(data) => assert (s.log + data)[from..s.pos] == s.log[from..s.pos];
    case Read(max) =>
      var pos := Step(s, e).pos;
      assert s.log[from..s.pos] + s.log[s.pos..pos] == s.log[from..pos];
  }

  lemma {:induction false} KeepsSeeing(s: Run, es: seq<Event>, from: nat)
    requires Seen(s, from) && KeepsUp(s, es)
    ensures Seen(After(s, es), from)
    decreases |es|
  {
    if es != [] {
      SeenStep(s, es[0], from);
      KeepsSeeing(Step(s, es[0]), es[1..], from);
    }
  }

  // The bytes a read skips because the ring has overwritten them.
  function Skipped(s: Run, e: Event): nat {
    if e.Read? && e.max > 0 && s.pos < Oldest(|s.log|) then Oldest(|s.log|) - s.pos else 0
  }

  function Lost(s: Run, es: seq<Event>): nat
    decreases |es|
  {
    if es == [] then 0 else Skipped(s, es[0]) + Lost(Step(s, es[0]), es[1..])
  }

  // Over any interleaving the reader moves on by the bytes it got and the bytes it
  // lost, and it loses none exactly if it keeps up.
  lemma {:induction false} MovesByGotAndLost(s: Run, es: seq<Event>)
    requires s.pos <= |s.log|
    ensures var t := After(s, es);
      && |s.got| <= |t.got| && t.pos <= |t.log|
      && t.pos - s.pos == |t.got| - |s.got| + Lost(s, es)
    ensures Lost(s, es) == 0 <==> KeepsUp(s, es)
    decreases |es|
  {
    if es != [] { MovesByGotAndLost(Step(s, es[0]), es[1..]); }
  }

  // Exactly the readers that keep up have seen the whole log between their first
  // and their present position, without loss or repeats.
  lemma NoLossNoRepeat(s: Run, es: seq<Event>, from: nat)
    requires Seen(s, from)
    ensures Seen(After(s, es), from) <==> KeepsUp(s, es)
  {
    MovesByGotAndLost(s, es);
    if KeepsUp(s, es) { KeepsSeeing(s, es, from); }
  }

  // A read with room gives as many bytes as fit or are there, from the position or,
  // if that is more than 16384 behind, from the oldest byte kept.
  lemma ReadDelivers(s: Run, max: nat)
    requires s.pos <= |s.log| && max > 0
    ensures var from := if |s.log| - s.pos > 16384 then |s.log| - 16384 else s.pos;
      var n := if |s.log| - from < max then |s.log| - from else max;
      Step(s, Read(max)) == Run(s.log, from + n, s.got + s.log[from..from + n])
  {}

  function Reads(max: nat, k: nat): seq<Event> { if k == 0 then [] else [Read(max)] + Reads(max, k - 1) }

  // So a reader that goes on reading comes to the end of the log.
  lemma {:induction false} ReadsDrain(s: Run, max: nat, k: nat)
    requires s.pos <= |s.log| <= s.pos + 16384 && max > 0
    ensures var t := After(s, Reads(max, k));
      t.log == s.log && t.pos == if |s.log| - s.pos <= k * max then |s.log| else s.pos + k * max
    decreases k
  {
    if k > 0 {
      var es := Reads(max, k);
      assert es[0] == Read(max) && es[1..] == Reads(max, k - 1);
      ReadDelivers(s, max);
      hide Step;
      ReadsDrain(Step(s, Read(max)), max, k - 1);
      assert k * max == max + (k - 1) * max;
    }
  }

  // ----- The ring -------------------------------------------------------------------------

  class Ring {
    const ring: array<char>
    var writeAbs: nat
    ghost var log: seq<char>

    // The last RING_SIZE bytes of the log are in their slots.
    ghost predicate Valid()
      reads this, ring
    {
      && ring.Length == RING_SIZE && writeAbs == |log|
      && forall k | Oldest(|log|) <= k < |log| :: ring[k % RING_SIZE] == log[k]
    }

    constructor ()
      ensures Valid() && log == [] && fresh(ring)
    {
      ring := new char[RING_SIZE](i => '\0');
      writeAbs, log := 0, [];
    }

    // ring_append.
    method Append(data: seq<char>)
      requires Valid()
      modifies this, ring
      ensures Valid() && log == old(log) + data
    {
      var i := 0;
      while i < |data|
        invariant i <= |data| && Valid() && log == old(log) + data[..i]
      {
        assert forall k | Oldest(writeAbs + 1) <= k < writeAbs :: k % RING_SIZE != writeAbs % RING_SIZE;
        ring[writeAbs % RING_SIZE] := data[i];
        writeAbs := writeAbs + 1;
        log := log + [data[i]];
        i := i + 1;
      }
    }

    // klog_ring_read: copies into `buf`, in one or two pieces, and moves the position.
    method ReadInto(pos: nat, buf: array<char>, max: nat) returns (n: nat, pos': nat)
      requires Valid() && max <= buf.Length && buf != ring
      modifies buf
      ensures Valid() && n <= max && (buf[..n], pos') == ReadLog(log, pos, max)
    {
      hide Piece;
      if max == 0 { return 0, pos; }
      var oldest := Oldest(writeAbs);
      pos' := if pos < oldest then oldest else pos;
      var avail := if writeAbs > pos' then writeAbs - pos' else 0;
      n := if avail < max then avail else max;
      if n > 0 {
        CopyPieces(buf, pos' % RING_SIZE, n);
        PieceIsLog(ring[..], log, pos', n);
        pos' := pos' + n;
      }
    }

    // The one or two copies of a read that starts in slot `start`.
    method CopyPieces(buf: array<char>, start: nat, n: nat)
      requires buf != ring && ring.Length == RING_SIZE && start < RING_SIZE && n <= RING_SIZE && n <= buf.Length
      modifies buf
      ensures buf[..n] == Piece(ring[..], start, n)
    {
      var first := RING_SIZE - start;
      if first > n { first := n; }
      Copy(buf, 0, start, first);
      if first < n { Copy(buf, first, 0, n - first); }
      assert buf[..n] == buf[..first] + buf[first..n];
    }

    // memcpy of a stretch of the ring.
    method Copy(buf: array<char>, at: nat, start: nat, n: nat)
      requires buf != ring && at + n <= buf.Length && start + n <= ring.Length
      modifies buf
      ensures buf[..at] == old(buf[..at]) && buf[at..at + n] == ring[start..start + n]
    {
      var i := 0;
      while i < n
        invariant i <= n && buf[..at] == old(buf[..at])
        invariant buf[at..at + i] == ring[start..start + i]
      {
        buf[at + i] := ring[start + i];
        i := i + 1;
      }
    }

    // Any sequence of appends and reads on the ring is a run on the log.
    method Play(es: seq<Event>, pos: nat) returns (pos': nat, got: seq<char>)
      requires Valid()
      modifies this, ring
      ensures Valid() && Run(log, pos', got) == After(Run(old(log), pos, []), es)
    {
      pos', got := pos, [];
      var i := 0;
      while i < |es|
        invariant i <= |es| && Valid()
        invariant After(Run(log, pos', got), es[i..]) == After(Run(old(log), pos, []), es)
      {
        assert es[i..][0] == es[i] && es[i..][1..] == es[i + 1..];
        match es[i] {
          case Append(data) => Append(data);
          case Read(max) =>
            var buf := new char[max](k => '\0');
            var n, p := ReadInto(pos', buf, max);
            pos', got := p, got + buf[..n];
        }
        i := i + 1;
      }
    }
  }

  // The n bytes from a slot on, going round.
  function Piece(ring: seq<char>, start: nat, n: nat): seq<char>
    requires |ring| == RING_SIZE && start < RING_SIZE && n <= RING_SIZE
  {
    var first := Min(RING_SIZE - start, n);
    ring[start..start + first] + ring[..n - first]
  }

  // The stretch from a position, cut at the wrap, is the log from there.
  lemma PieceIsLog(ring: seq<char>, log: seq<char>, p: nat, n: nat)
    requires |ring| == RING_SIZE && Oldest(|log|) <= p && 0 < n && p + n <= |log|
    requires forall k | Oldest(|log|) <= k < |log| :: ring[k % RING_SIZE] == log[k]
    ensures n <= RING_SIZE && Piece(ring, p % RING_SIZE, n) == log[p..p + n]
  {
    var r := Piece(ring, p % RING_SIZE, n);
    forall k | 0 <= k < n ensures r[k] == log[p + k] {
      assert ring[(p + k) % RING_SIZE] == log[p + k];
    }
  }

  // ----- A raw dump ---------------------------------------------------------------------------

  // format_klog_ring, before decoding.
  function FormatRing(data: seq<char>, writeAbs: nat): seq<char> {
    if data == [] || writeAbs == 0 then []
    else if writeAbs < |data| then data[..writeAbs]
    else var cut := writeAbs % |data|; data[cut..] + data[..cut]
  }

  // The reconstruction is the last bytes of the log, as many as the ring holds.
  lemma DumpIsLogTail(ring: seq<char>, log: seq<char>)
    requires |ring| == RING_SIZE
    requires forall k | Oldest(|log|) <= k < |log| :: ring[k % RING_SIZE] == log[k]
    ensures FormatRing(ring, |log|) == log[Oldest(|log|)..]
  {
    hide FormatRing, Piece, Oldest;
    DumpIs(ring, |log|);
    if |log| >= RING_SIZE {
      PieceIsLog(ring, log, Oldest(|log|), RING_SIZE);
      assert log[Oldest(|log|)..Oldest(|log|) + RING_SIZE] == log[Oldest(|log|)..];
    } else {
      assert forall k | 0 <= k < |log| :: ring[..|log|][k] == ring[k % RING_SIZE];
    }
  }

  // A ring that has gone round is read from the slot of its oldest byte; another
  // from its start.
  lemma DumpIs(ring: seq<char>, total: nat)
    requires |ring| == RING_SIZE
    ensures total < RING_SIZE ==> Oldest(total) == 0 && FormatRing(ring, total) == ring[..total]
    ensures total >= RING_SIZE ==>
      var o := Oldest(total);
      o + RING_SIZE == total && FormatRing(ring, total) == Piece(ring, o % RING_SIZE, RING_SIZE)
  {
    if total >= RING_SIZE { assert Oldest(total) % RING_SIZE == total % RING_SIZE; }
  }
}
