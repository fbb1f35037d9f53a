/**
  The pipe of one job: one ring of bytes, written and read in both directions by the installer
  and the executor of the job. Each method is one critical section, or one check of the flags
  that is made outside of it; calls are series of these, in any interleaving of the two sides.
 */
module JobPipe {
  import opened Circular

  type Byte = bv8

  datatype Error = None | BadFirst | Open | Closed | Terminated | Protocol | EndOfFile

  /** One side: its position in the ring, its bytes that the other has not read, and its holds. */
  datatype Side = Side(head: nat, bytes: nat, readHold: bool, writeHold: bool)

  // ------------------------------------------------------------------ the ring

  /** The `n` bytes from position `head` on. */
  function Unread(ring: seq<Byte>, head: nat, n: nat): (bytes: seq<Byte>)
    requires head < |ring| && n <= |ring|
    ensures |bytes| == n
    ensures forall k :: 0 <= k < n ==> bytes[k] == ring[Wrap(head + k, |ring|)]
  {
    seq(n, k requires 0 <= k < n => ring[Wrap(head + k, |ring|)])
  }

  lemma UnreadMore(ring: seq<Byte>, head: nat, n: nat, x: Byte)
    requires head < |ring| && n < |ring|
    ensures Unread(ring[Wrap(head + n, |ring|) := x], head, n + 1) == Unread(ring, head, n) + [x]
  {
  }

  lemma UnreadLess(ring: seq<Byte>, head: nat, n: nat)
    requires head < |ring| && 0 < n <= |ring|
    ensures Unread(ring, head, n)[0] == ring[head]
    ensures Unread(ring, Wrap(head + 1, |ring|), n - 1) == Unread(ring, head, n)[1..]
  {
  }

  /** The writer is as far ahead of the reader as it has bytes that were not read. */
  ghost predicate Ahead(writer: Side, reader: Side, capacity: nat) {
    writer.head == Wrap(reader.head + writer.bytes, capacity)
  }

  /** Both streams at once: at most one of them has bytes in the ring. */
  ghost predicate RingOk(ring: seq<Byte>, a: Side, b: Side) {
    && a.head < |ring| && b.head < |ring| && a.bytes <= |ring| && b.bytes <= |ring|
    && (a.bytes == 0 || b.bytes == 0)
    && (b.bytes == 0 ==> Ahead(a, b, |ring|))
    && (a.bytes == 0 ==> Ahead(b, a, |ring|))
  }

  /** What was read, followed by what the ring holds, is what was written: first in, first out. */
  ghost predicate Flows(ring: seq<Byte>, writer: Side, reader: Side, sent: seq<Byte>, got: seq<Byte>)
    requires reader.head < |ring| && writer.bytes <= |ring|
  {
    sent == got + Unread(ring, reader.head, writer.bytes)
  }

  lemma NothingFlows(ring: seq<Byte>, writer: Side, reader: Side, sent: seq<Byte>, got: seq<Byte>)
    requires reader.head < |ring| && writer.bytes == 0
    ensures Flows(ring, writer, reader, sent, got) <==> sent == got
  {
    assert got + Unread(ring, reader.head, 0) == got;
  }

  lemma UnreadFirst(ring: seq<Byte>, head: nat, n: nat, out: seq<Byte>)
    requires head < |ring| && 0 < n <= |ring|
    ensures out + Unread(ring, head, n) == out + [ring[head]] + Unread(ring, Wrap(head + 1, |ring|), n - 1)
  {
    UnreadLess(ring, head, n);
    assert Unread(ring, head, n) == [ring[head]] + Unread(ring, head, n)[1..];
  }

  /** One byte written. */
  lemma PutOne(ring: seq<Byte>, me: Side, other: Side, sent: seq<Byte>, got: seq<Byte>, x: Byte)
    requires RingOk(ring, me, other) && other.bytes == 0 && me.bytes < |ring| && Flows(ring, me, other, sent, got)
    ensures var after := me.(bytes := me.bytes + 1, head := Wrap(me.head + 1, |ring|),
                             writeHold := me.bytes + 1 == |ring| || me.writeHold);
            RingOk(ring[me.head := x], after, other) && Flows(ring[me.head := x], after, other, sent + [x], got)
  {
    UnreadMore(ring, other.head, me.bytes, x);
  }

  /** One byte read. */
  lemma TakeOne(ring: seq<Byte>, me: Side, other: Side, sent: seq<Byte>, got: seq<Byte>)
    requires RingOk(ring, me, other) && other.bytes > 0 && Flows(ring, other, me, sent, got)
    ensures var left := other.(bytes := other.bytes - 1);
            var after := me.(head := Wrap(me.head + 1, |ring|), readHold := left.bytes == 0 || me.readHold);
            RingOk(ring, after, left) && Flows(ring, left, after, sent, got + [ring[me.head]])
  {
    UnreadFirst(ring, me.head, other.bytes, got);
  }

  function Min(a: nat, b: nat): nat {
    if a < b then a else b
  }

  class Pipe {
    const ring: array<Byte>

    var installer: Side
    var executor: Side
    var exeTermHold: bool

    // The flags: the installer wrote, the installer wants no answer, the executor is done.
    var installWrite: bool
    var installerTerm: bool
    var executerTerm: bool

    // Everything that either side wrote and read since the job was installed.
    ghost var sentByInstaller: seq<Byte>
    ghost var sentByExecutor: seq<Byte>
    ghost var readByExecutor: seq<Byte>
    ghost var readByInstaller: seq<Byte>

    /** The holds tell the other side's or one's own byte count. */
    ghost predicate Holds()
      reads this, ring
    {
      && (!executerTerm ==> (executor.readHold <==> installer.bytes == 0))
      && (!executerTerm ==> (installer.readHold <==> executor.bytes == 0))
      && (executerTerm ==> !installer.readHold)
      && (installer.writeHold <==> installer.bytes == ring.Length)
      && (executor.writeHold <==> executor.bytes == ring.Length)
      && (exeTermHold <==> executor.bytes > 0)
    }

    ghost predicate Valid()
      reads this, ring
    {
      && RingOk(ring[..], installer, executor)
      && Flows(ring[..], installer, executor, sentByInstaller, readByExecutor)
      && Flows(ring[..], executor, installer, sentByExecutor, readByInstaller)
      && Holds()
      && (executerTerm ==> executor.bytes == 0)
      && (!installWrite ==> Silent())
      && (installerTerm ==> sentByExecutor == [])
    }

    /** Neither side has written anything. */
    ghost predicate Silent()
      reads this
    {
      sentByInstaller == [] && sentByExecutor == []
    }

    /** What was never written was never read, and is not in the ring. */
    lemma NothingSent(isExecutor: bool)
      requires Valid() && Sent(isExecutor) == []
      ensures Got(!isExecutor) == [] && Mine(isExecutor).bytes == 0
    {
      assert |Unread(ring[..], Theirs(isExecutor).head, Mine(isExecutor).bytes)| == 0;
    }

    /** What one side wrote and the other did not read yet. */
    ghost function InRing(isExecutor: bool): (bytes: seq<Byte>)
      reads this, ring
      requires Valid()
      ensures |bytes| == Mine(isExecutor).bytes && Sent(isExecutor) == Got(!isExecutor) + bytes
    {
      Unread(ring[..], Theirs(isExecutor).head, Mine(isExecutor).bytes)
    }

    /** The side that makes a call, and the side across from it. */
    function Mine(isExecutor: bool): Side
      reads this
    {
      if isExecutor then executor else installer
    }

    function Theirs(isExecutor: bool): Side
      reads this
    {
      Mine(!isExecutor)
    }

    /** A slot that never had a job counts as one whose executor is done. */
    constructor (capacity: nat)
      requires capacity >= 1
      ensures Valid() && fresh(ring) && ring.Length == capacity
      ensures executerTerm && !installWrite && !installerTerm
      ensures installer == executor == Side(0, 0, false, false)
    {
      ring := new Byte[capacity];
      installer, executor := Side(0, 0, false, false), Side(0, 0, false, false);
      exeTermHold, installWrite, installerTerm, executerTerm := false, false, false, true;
      sentByInstaller, sentByExecutor, readByExecutor, readByInstaller := [], [], [], [];
    }

    /** A job is installed: everything starts anew but the hold that was not reset. */
    method Install()
      requires Valid() && executerTerm
      modifies this
      ensures Valid() && !executerTerm && !installWrite && !installerTerm
      ensures installer.bytes == 0 && executor.bytes == 0
      ensures sentByInstaller == [] && sentByExecutor == [] && readByExecutor == [] && readByInstaller == []
    {
      installer, executor := Side(0, 0, true, false), Side(0, 0, true, false);
      installWrite, installerTerm, executerTerm := false, false, false;
      sentByInstaller, sentByExecutor, readByExecutor, readByInstaller := [], [], [], [];
    }

    // ---------------------------------------------------------------- termination

    /** The installer wants no answer. It can say so before it writes, and then nothing was written at all. */
    method TermInstaller() returns (err: Error)
      requires Valid()
      modifies this`installerTerm
      ensures Valid()
      ensures err == None || err == Open
      ensures err == None ==> installerTerm && Silent() && readByExecutor == [] && readByInstaller == []
      ensures err == Open <==> installWrite
      ensures err == Open ==> installerTerm == old(installerTerm)
      ensures !Silent() ==> err == Open
    {
      if installWrite {
        err := Open;
      } else {
        NothingSent(true);
        NothingSent(false);
        installerTerm := true;
        err := None;
      }
    }

    /** An installer that wants no answer gets none, and never keeps the executor from ending. */
    lemma OneWay()
      requires Valid() && installerTerm
      ensures sentByExecutor == [] && readByInstaller == [] && executor.bytes == 0 && !exeTermHold
    {
      NothingSent(true);
    }

    /** The executor is done; it gets here only when the installer has read all it wrote. */
    method TermExecutor()
      requires Valid() && !exeTermHold
      modifies this`executerTerm, this`installer
      ensures Valid() && executerTerm && installer == old(installer).(readHold := false)
    {
      executerTerm := true;
      installer := installer.(readHold := false);
    }

    // ---------------------------------------------------------------- bytes into and out of the ring

    /** Writes bytes at the head of one side until there are no more or the ring is full. */
    method Put(me: Side, other: Side, rest: seq<Byte>, ghost sent: seq<Byte>, ghost got: seq<Byte>)
      returns (after: Side, n: nat)
      requires RingOk(ring[..], me, other) && other.bytes == 0 && me.bytes < ring.Length && !me.writeHold
      requires Flows(ring[..], me, other, sent, got)
      modifies ring
      ensures n == Min(|rest|, ring.Length - me.bytes)
      ensures after == Side(after.head, me.bytes + n, me.readHold, me.bytes + n == ring.Length)
      ensures RingOk(ring[..], after, other) && Flows(ring[..], after, other, sent + rest[..n], got)
    {
      after, n := me, 0;
      assert sent + rest[..0] == sent;
      while n < |rest| && after.bytes < ring.Length
        invariant n <= Min(|rest|, ring.Length - me.bytes) && RingOk(ring[..], after, other)
        invariant after == Side(after.head, me.bytes + n, me.readHold, me.bytes + n == ring.Length)
        invariant Flows(ring[..], after, other, sent + rest[..n], got)
      {
        ghost var was := ring[..];
        WrapIsRemainder(after.head, ring.Length);
        PutOne(was, after, other, sent + rest[..n], got, rest[n]);
        assert sent + rest[..n + 1] == sent + rest[..n] + [rest[n]];
        ring[after.head] := rest[n];
        assert ring[..] == was[after.head := rest[n]];
        after := after.(bytes := after.bytes + 1, head := (after.head + 1) % ring.Length,
                        writeHold := after.bytes + 1 == ring.Length || after.writeHold);
        n := n + 1;
      }
    }

    /** Reads one byte at the head of one side. */
    method TakeByte(me: Side, other: Side, ghost sent: seq<Byte>, ghost got: seq<Byte>)
      returns (after: Side, left: Side, x: Byte)
      requires RingOk(ring[..], me, other) && other.bytes > 0 && Flows(ring[..], other, me, sent, got)
      ensures left == other.(bytes := other.bytes - 1)
      ensures after == me.(head := after.head, readHold := left.bytes == 0 || me.readHold)
      ensures RingOk(ring[..], after, left) && Flows(ring[..], left, after, sent, got + [x])
    {
      WrapIsRemainder(me.head, ring.Length);
      TakeOne(ring[..], me, other, sent, got);
      x := ring[me.head];
      left := other.(bytes := other.bytes - 1);
      after := me.(head := (me.head + 1) % ring.Length, readHold := left.bytes == 0 || me.readHold);
    }

    /** Reads bytes at the head of one side until it has all it wants or there are no more. */
    method Take(me: Side, other: Side, want: nat, ghost sent: seq<Byte>, ghost got: seq<Byte>)
      returns (after: Side, left: Side, out: seq<Byte>)
      requires RingOk(ring[..], me, other) && 0 < other.bytes && !me.readHold
      requires Flows(ring[..], other, me, sent, got)
      ensures |out| == Min(want, other.bytes)
      ensures left == other.(bytes := other.bytes - |out|)
      ensures after == me.(head := after.head, readHold := other.bytes == |out|)
      ensures RingOk(ring[..], after, left) && Flows(ring[..], left, after, sent, got + out)
    {
      after, left, out := me, other, [];
      assert got + [] == got;
      while |out| < want && left.bytes > 0
        invariant |out| <= Min(want, other.bytes) && RingOk(ring[..], after, left)
        invariant left == other.(bytes := other.bytes - |out|)
        invariant after == me.(head := after.head, readHold := other.bytes == |out|)
        invariant Flows(ring[..], left, after, sent, got + out)
      {
        var x;
        after, left, x := TakeByte(after, left, sent, got + out);
        assert got + (out + [x]) == got + out + [x];
        out := out + [x];
      }
    }

    // ---------------------------------------------------------------- writing

    /** A side may go on to write: what `WriteSection` needs, and nothing that happens before its turn takes it away. */
    ghost predicate MayWrite(isExecutor: bool)
      reads this
    {
      installWrite && (isExecutor ==> !installerTerm)
    }

    /** What a write checks before it waits. `done` is a write of the executor that nobody wants. */
    method WriteBegin(isExecutor: bool) returns (err: Error, done: bool)
      requires Valid()
      modifies this`installWrite
      ensures Valid() && (err == None || err == BadFirst) && (installWrite <==> old(installWrite) || !isExecutor)
      ensures err == None && !done <==> MayWrite(isExecutor)
      ensures err == BadFirst <==> isExecutor && !installWrite
      ensures err == BadFirst ==> Silent() && readByExecutor == []
      ensures done <==> isExecutor && installWrite && installerTerm
      ensures done ==> sentByExecutor == [] && readByInstaller == []
      ensures readByExecutor != [] && !installerTerm ==> err == None && !done
    {
      err, done := None, false;
      if isExecutor {
        if !installWrite {
          NothingSent(false);
          err := BadFirst;
        } else if installerTerm {
          OneWay();
          done := true;
        }
      } else {
        installWrite := true;
      }
    }

    method InstallerSends(rest: seq<Byte>) returns (n: nat)
      requires Valid() && rest != [] && !executerTerm && !installer.writeHold && executor.bytes == 0 && MayWrite(false)
      modifies this`installer, this`executor, this`sentByInstaller, ring
      ensures Valid() && n > 0 && n == Min(|rest|, ring.Length - old(installer.bytes))
      ensures sentByInstaller == old(sentByInstaller) + rest[..n]
      ensures NoNewHolds(old(executor), executor)
    {
      NothingFlows(ring[..], executor, installer, sentByExecutor, readByInstaller);
      installer, n := Put(installer, executor, rest, sentByInstaller, readByExecutor);
      NothingFlows(ring[..], executor, installer, sentByExecutor, readByInstaller);
      if executor.readHold {
        executor := executor.(readHold := false);
      }
      sentByInstaller := sentByInstaller + rest[..n];
    }

    method ExecutorSends(rest: seq<Byte>) returns (n: nat)
      requires Valid() && rest != [] && !executerTerm && !executor.writeHold && installer.bytes == 0
      requires MayWrite(true)
      modifies this`installer, this`executor, this`exeTermHold, this`sentByExecutor, ring
      ensures Valid() && n > 0 && n == Min(|rest|, ring.Length - old(executor.bytes))
      ensures sentByExecutor == old(sentByExecutor) + rest[..n]
      ensures NoNewHolds(old(installer), installer)
    {
      NothingFlows(ring[..], installer, executor, sentByInstaller, readByExecutor);
      executor, n := Put(executor, installer, rest, sentByExecutor, readByInstaller);
      NothingFlows(ring[..], installer, executor, sentByInstaller, readByExecutor);
      if installer.readHold {
        installer := installer.(readHold := false);
      }
      exeTermHold := true;
      sentByExecutor := sentByExecutor + rest[..n];
    }

    /** One turn of a write, after the wait for room. */
    method WriteSection(isExecutor: bool, rest: seq<Byte>) returns (err: Error, n: nat)
      requires Valid() && rest != [] && MayWrite(isExecutor) && !Mine(isExecutor).writeHold
      modifies this`installer, this`executor, this`exeTermHold, this`sentByInstaller, this`sentByExecutor, ring
      ensures Valid()
      ensures err == if executerTerm then Terminated else if old(Theirs(isExecutor).bytes) > 0 then Protocol else None
      ensures err != None ==> n == 0
      ensures err == None ==> n > 0 && n == Min(|rest|, ring.Length - old(Mine(isExecutor).bytes))
      ensures sentByInstaller == old(sentByInstaller) + (if err == None && !isExecutor then rest[..n] else [])
      ensures sentByExecutor == old(sentByExecutor) + (if err == None && isExecutor then rest[..n] else [])
      ensures NoNewHolds(old(Theirs(isExecutor)), Theirs(isExecutor))
    {
      if executerTerm {
        return Terminated, 0;
      }
      if Theirs(isExecutor).bytes > 0 {
        return Protocol, 0;
      }
      err := None;
      if isExecutor {
        n := ExecutorSends(rest);
      } else {
        n := InstallerSends(rest);
      }
    }

    // ---------------------------------------------------------------- reading

    /** What a read checks before it waits: an error says that there is nothing to read, now or later. */
    method ReadBegin(isExecutor: bool) returns (err: Error)
      requires Valid()
      ensures err == None || err == BadFirst || err == Closed
      ensures err == None <==> if isExecutor then !executerTerm else MayWrite(true)
      ensures err == BadFirst <==> !isExecutor && !installWrite
      ensures err == BadFirst ==> Silent() && readByExecutor == [] && readByInstaller == []
      ensures err == Closed && !isExecutor ==> installerTerm && sentByExecutor == []
      ensures err == Closed && isExecutor ==> executerTerm && readByInstaller == sentByExecutor
    {
      err := None;
      if isExecutor {
        if executerTerm {
          Settled(true);
          err := Closed;
        }
      } else if !installWrite {
        NothingSent(true);
        NothingSent(false);
        err := BadFirst;
      } else if installerTerm {
        err := Closed;
      }
    }

    method ExecutorReceives(want: nat) returns (out: seq<Byte>)
      requires Valid() && want > 0 && !executerTerm && !executor.readHold
      modifies this`installer, this`executor, this`readByExecutor
      ensures Valid() && out != [] && |out| == Min(want, old(installer.bytes))
      ensures readByExecutor == old(readByExecutor) + out && NoNewHolds(old(installer), installer)
    {
      NothingFlows(ring[..], executor, installer, sentByExecutor, readByInstaller);
      executor, installer, out := Take(executor, installer, want, sentByInstaller, readByExecutor);
      NothingFlows(ring[..], executor, installer, sentByExecutor, readByInstaller);
      installer := installer.(writeHold := false);
      readByExecutor := readByExecutor + out;
    }

    method InstallerReceives(want: nat) returns (out: seq<Byte>)
      requires Valid() && want > 0 && !executerTerm && !installer.readHold
      modifies this`installer, this`executor, this`exeTermHold, this`readByInstaller
      ensures Valid() && out != [] && |out| == Min(want, old(executor.bytes))
      ensures readByInstaller == old(readByInstaller) + out && NoNewHolds(old(executor), executor)
    {
      NothingFlows(ring[..], installer, executor, sentByInstaller, readByExecutor);
      installer, executor, out := Take(installer, executor, want, sentByExecutor, readByInstaller);
      NothingFlows(ring[..], installer, executor, sentByInstaller, readByExecutor);
      executor := executor.(writeHold := false);
      if executor.bytes == 0 {
        exeTermHold := false;
      }
      readByInstaller := readByInstaller + out;
    }

    /** One turn of a read, after the wait for bytes. Once the executor is done there are none left. */
    method ReadSection(isExecutor: bool, want: nat) returns (err: Error, out: seq<Byte>)
      requires Valid() && want > 0 && (isExecutor ==> !executerTerm) && !Mine(isExecutor).readHold
      modifies this`installer, this`executor, this`exeTermHold, this`readByInstaller, this`readByExecutor
      ensures Valid()
      ensures err == if executerTerm then EndOfFile else None
      ensures err != None ==> out == []
      ensures err == None ==> out != [] && |out| == Min(want, old(Theirs(isExecutor).bytes))
      ensures readByExecutor == old(readByExecutor) + (if isExecutor then out else [])
      ensures readByInstaller == old(readByInstaller) + (if isExecutor then [] else out)
      ensures NoNewHolds(old(Theirs(isExecutor)), Theirs(isExecutor))
    {
      if executerTerm {
        assert executor.bytes == 0;
        return EndOfFile, [];
      }
      err := None;
      if isExecutor {
        out := ExecutorReceives(want);
      } else {
        out := InstallerReceives(want);
      }
    }

    ghost function Sent(isExecutor: bool): seq<Byte>
      reads this
    {
      if isExecutor then sentByExecutor else sentByInstaller
    }

    ghost function Got(isExecutor: bool): seq<Byte>
      reads this
    {
      if isExecutor then readByExecutor else readByInstaller
    }

    lemma Settled(isExecutor: bool)
      requires Valid() && Mine(isExecutor).bytes == 0
      ensures Sent(isExecutor) == Got(!isExecutor)
    {
      NothingFlows(ring[..], Mine(isExecutor), Theirs(isExecutor), Sent(isExecutor), Got(!isExecutor));
    }

    /** An exchange under way: after `base` the writer sent the first `sent` bytes and the reader got `out`. */
    ghost predicate Underway(isExecutor: bool, base: seq<Byte>, data: seq<Byte>, sent: nat, out: seq<Byte>)
      reads this, ring
    {
      && Valid() && !executerTerm && MayWrite(isExecutor) && Theirs(isExecutor).bytes == 0
      && |out| <= sent <= |data| && Mine(isExecutor).bytes == sent - |out|
      && Sent(isExecutor) == base + data[..sent] && Got(!isExecutor) == base + out
    }

    /** One turn of the writer of an exchange. */
    method SendSome(isExecutor: bool, rest: seq<Byte>, ghost base: seq<Byte>, ghost data: seq<Byte>, ghost sent: nat,
                    ghost out: seq<Byte>)
      returns (n: nat)
      requires Underway(isExecutor, base, data, sent, out) && rest == data[sent..] && rest != []
      requires !Mine(isExecutor).writeHold
      modifies this`installer, this`executor, this`exeTermHold, this`sentByInstaller, this`sentByExecutor, ring
      ensures 0 < n <= |rest| && Underway(isExecutor, base, data, sent + n, out)
    {
      var err;
      err, n := WriteSection(isExecutor, rest);
      PrefixGrows(base, data, sent, n);
    }

    /** One turn of the reader of an exchange. */
    method ReceiveSome(isExecutor: bool, want: nat, ghost base: seq<Byte>, ghost data: seq<Byte>, ghost sent: nat,
                       out: seq<Byte>)
      returns (more: seq<Byte>)
      requires Underway(isExecutor, base, data, sent, out) && |out| < want && !Theirs(isExecutor).readHold
      modifies this`installer, this`executor, this`exeTermHold, this`readByInstaller, this`readByExecutor
      ensures |out| < |more| <= want && Underway(isExecutor, base, data, sent, more)
    {
      var err, part := ReadSection(!isExecutor, want - |out|);
      more := out + part;
      assert base + more == base + out + part;
    }

    /** While there is something left to write or to read, one side is not held. */
    lemma SomebodyCan(isExecutor: bool, base: seq<Byte>, data: seq<Byte>, sent: nat, out: seq<Byte>, want: nat)
      requires Underway(isExecutor, base, data, sent, out) && |out| <= want <= |data| <= want + ring.Length
      requires sent < |data| || |out| < want
      ensures (sent < |data| && !Mine(isExecutor).writeHold) || (|out| < want && !Theirs(isExecutor).readHold)
    {
    }

    /** All is written: what was not read is in the ring. */
    lemma AllSent(isExecutor: bool, base: seq<Byte>, data: seq<Byte>, out: seq<Byte>)
      requires Underway(isExecutor, base, data, |data|, out)
      ensures data == out + InRing(isExecutor)
    {
      assert data[..|data|] == data;
      assert base + out + InRing(isExecutor) == base + (out + InRing(isExecutor));
      SamePrefix(base, data, out + InRing(isExecutor));
    }

    /**
      A write against a read, in turns of either side in any order. The read wants no more than
      there will be, and leaves no more than the ring holds: then somebody always can take a
      turn, and the reader gets what was in the ring and what was written, in this order.
     */
    method Exchange(isExecutor: bool, data: seq<Byte>, want: nat) returns (out: seq<Byte>)
      requires Valid() && !executerTerm && MayWrite(isExecutor) && Theirs(isExecutor).bytes == 0
      requires want <= Mine(isExecutor).bytes + |data| <= want + ring.Length
      modifies this, ring
      ensures Valid() && out == old(InRing(isExecutor) + data)[..want]
      ensures InRing(isExecutor) == old(InRing(isExecutor) + data)[want..]
    {
      ghost var base, all := Got(!isExecutor), InRing(isExecutor) + data;
      assert all[..|InRing(isExecutor)|] == InRing(isExecutor) && base + [] == base;
      assert data == all[|InRing(isExecutor)|..];
      out := TakeTurns(isExecutor, data, want, base, all);
      AllSent(isExecutor, base, all, out);
    }

    /** A turn of either side that is not held. */
    method OneTurn(isExecutor: bool, rest: seq<Byte>, want: nat, ghost base: seq<Byte>, ghost all: seq<Byte>,
                   ghost sent: nat, out: seq<Byte>)
      returns (n: nat, more: seq<Byte>)
      requires Underway(isExecutor, base, all, sent, out) && rest == all[sent..]
      requires |out| <= want <= |all| <= want + ring.Length && (rest != [] || |out| < want)
      modifies this, ring
      ensures n <= |rest| && |out| <= |more| <= want && (n > 0 || |more| > |out|)
      ensures Underway(isExecutor, base, all, sent + n, more)
    {
      SomebodyCan(isExecutor, base, all, sent, out, want);
      n, more := 0, out;
      if
      case rest != [] && !Mine(isExecutor).writeHold =>
        n := SendSome(isExecutor, rest, base, all, sent, out);
      case |out| < want && !Theirs(isExecutor).readHold =>
        more := ReceiveSome(isExecutor, want, base, all, sent, out);
    }

    /** The turns of an exchange: at the start all but `data` was sent. */
    method TakeTurns(isExecutor: bool, data: seq<Byte>, want: nat, ghost base: seq<Byte>, ghost all: seq<Byte>)
      returns (out: seq<Byte>)
      requires |data| <= |all| && data == all[|all| - |data|..] && want <= |all| <= want + ring.Length
      requires Underway(isExecutor, base, all, |all| - |data|, [])
      modifies this, ring
      ensures |out| == want && Underway(isExecutor, base, all, |all|, out)
    {
      var rest := data;
      ghost var sent: nat := |all| - |data|;
      out := [];
      while rest != [] || |out| < want
        invariant Underway(isExecutor, base, all, sent, out) && rest == all[sent..] && |out| <= want
        decreases |rest|, want - |out|
      {
        var n;
        n, out := OneTurn(isExecutor, rest, want, base, all, sent, out);
        RestOfRest(all, sent, n);
        rest := rest[n..];
        sent := sent + n;
      }
    }
  }

  lemma RestOfRest(data: seq<Byte>, sent: nat, n: nat)
    requires sent + n <= |data|
    ensures data[sent..][n..] == data[sent + n..]
  {
  }

  lemma PrefixGrows(base: seq<Byte>, data: seq<Byte>, sent: nat, n: nat)
    requires sent + n <= |data|
    ensures base + data[..sent + n] == base + data[..sent] + data[sent..][..n]
  {
    assert data[..sent + n] == data[..sent] + data[sent..][..n];
  }

  lemma SamePrefix(before: seq<Byte>, a: seq<Byte>, b: seq<Byte>)
    requires before + a == before + b
    ensures a == b
  {
    assert a == (before + a)[|before|..] && b == (before + b)[|before|..];
  }

  /** Nobody makes the other side wait: a wait that is over stays over. */
  ghost predicate NoNewHolds(was: Side, now: Side) {
    (now.readHold ==> was.readHold) && (now.writeHold ==> was.writeHold)
  }
}
