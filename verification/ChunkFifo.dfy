/** A bounded queue of chunks between a writing interrupt and a reading main loop (chunk_fifo_lib.c). */
module ChunkFifo {
  import opened Rings

  lemma Regroup<T>(a: seq<T>, x: T, b: seq<T>)
    ensures a + ([x] + b) == a + [x] + b && ([x] + b)[0] == x && ([x] + b)[1..] == b
  {
  }

  /**
   * `chunkNum + 1` places for chunks. The writer fills the place at `writePos`, the reader looks at the one at `readPos`;
   * between the two lie the chunks that are finished and not read.
   */
  class Fifo<T(0)> {
    const chunkNum: nat
    const slots: array<T>
    var readPos: nat
    var writePos: nat
    var openRead: bool
    var openWrite: bool
    /** The chunks finished so far, and those read to the end, in order. */
    ghost var finished: seq<T>
    ghost var taken: seq<T>

    ghost predicate Valid()
      reads this, slots
    {
      && 0 < chunkNum < 256 && slots.Length == chunkNum + 1 && readPos <= chunkNum && writePos <= chunkNum
      && (openRead ==> readPos != writePos)
      && finished == taken + Ring(slots[..], readPos, writePos)
    }

    /** The chunks that are finished and not read, oldest first. */
    ghost function Queue(): (r: seq<T>)
      requires Valid()
      reads this, slots
      ensures |r| <= chunkNum && finished == taken + r
    {
      Ring(slots[..], readPos, writePos)
    }

    constructor (chunkNum: nat)
      requires 0 < chunkNum < 256
      ensures Valid() && this.chunkNum == chunkNum && Queue() == [] && finished == [] && taken == []
      ensures !openRead && !openWrite && fresh(slots)
    {
      this.chunkNum := chunkNum;
      slots := new T[chunkNum + 1];
      readPos, writePos, openRead, openWrite := 0, 0, false, false;
      finished, taken := [], [];
    }

    /** The reader gets the oldest unread chunk to look at, if there is one. */
    method ReadOpen() returns (ok: bool, index: nat)
      requires Valid()
      modifies `openRead
      ensures Valid() && Queue() == old(Queue()) && (ok <==> Queue() != [])
      ensures ok ==> openRead && index == readPos < slots.Length && slots[index] == Queue()[0] == finished[|taken|]
      ensures !ok ==> openRead == old(openRead)
    {
      RingIsEmpty(slots[..], readPos, writePos);
      ok, index := false, 0;
      if readPos != writePos {
        RingGet(slots[..], readPos, writePos);
        index, openRead, ok := readPos, true, true;
      }
    }

    /** Done with the chunk: it leaves the queue. */
    method ReadClose()
      requires Valid()
      modifies `openRead, `readPos, `taken
      ensures Valid() && !openRead && finished == old(finished)
      ensures if old(openRead) then Queue() == old(Queue())[1..] && taken == old(taken) + [old(Queue())[0]]
              else Queue() == old(Queue()) && taken == old(taken)
    {
      hide Ring, Distance;
      if !openRead {
        return;
      }
      openRead := false;
      if readPos == writePos {
        assert false;
      } else {
        RingGet(slots[..], readPos, writePos);
        AfterIsModulo(readPos, chunkNum + 1);
        ghost var first, rest := slots[readPos], Ring(slots[..], After(readPos, chunkNum + 1), writePos);
        Regroup(taken, first, rest);
        taken := taken + [first];
        readPos := (readPos + 1) % (chunkNum + 1);
      }
    }

    /** The writer gets a place to fill: one that holds no unread chunk. */
    method WriteOpen() returns (index: nat)
      requires Valid()
      modifies `openWrite
      ensures Valid() && Queue() == old(Queue()) && openWrite && index == writePos < slots.Length
      ensures openRead ==> index != readPos
    {
      openWrite := true;
      index := writePos;
    }

    /** The writer fills its place: nothing that is unread, or being read, changes. */
    method Fill(x: T)
      requires Valid() && openWrite
      modifies slots
      ensures Valid() && Queue() == old(Queue()) && slots[writePos] == x
      ensures openRead ==> slots[readPos] == old(slots[readPos])
    {
      ghost var s := slots[..];
      slots[writePos] := x;
      assert slots[..] == s[writePos := x];
    }

    /** The chunk is finished: it joins the queue, unless the queue is full. */
    method WriteClose() returns (ghost joined: bool)
      requires Valid()
      modifies `openWrite, `writePos, `finished
      ensures Valid() && !openWrite && taken == old(taken) && slots[..] == old(slots[..])
      ensures joined <==> old(openWrite) && |old(Queue())| < chunkNum
      ensures Queue() == if joined then old(Queue()) + [slots[old(writePos)]] else old(Queue())
      ensures openRead ==> Queue() != [] && Queue()[0] == old(Queue())[0]
    {
      joined := false;
      RingIsEmpty(slots[..], readPos, writePos);
      if !openWrite {
        return;
      }
      openWrite := false;
      AfterIsModulo(writePos, chunkNum + 1);
      if (writePos + 1) % (chunkNum + 1) == readPos {
        return;
      }
      RingPut(slots[..], readPos, writePos, slots[writePos]);
      assert slots[..][writePos := slots[writePos]] == slots[..];
      finished := finished + [slots[writePos]];
      writePos := (writePos + 1) % (chunkNum + 1);
      joined := true;
    }

    method NumberOfChunks() returns (n: nat)
      requires Valid()
      ensures n == |Queue()| <= chunkNum < 256
    {
      if writePos >= readPos {
        n := writePos - readPos;
      } else {
        n := chunkNum + 1 - (readPos - writePos);
      }
    }
  }

  // ---- any interleaving of writer and reader ----

  /** What the two sides may call, in any order. */
  datatype Call<T> = OpenRead | CloseRead | OpenWrite | Filling(x: T) | CloseWrite

  /** The calls, one after the other; filling needs an open place. What comes out is in the order in which it was finished. */
  method Calls<T(0)>(fifo: Fifo<T>, calls: seq<Call<T>>)
    requires fifo.Valid() && fifo.taken <= fifo.finished
    modifies fifo, fifo.slots
    ensures fifo.Valid() && fifo.taken <= fifo.finished && |fifo.finished| - |fifo.taken| <= fifo.chunkNum
    ensures old(fifo.taken) <= fifo.taken && old(fifo.finished) <= fifo.finished
  {
    hide Ring;
    var i := 0;
    while i < |calls|
      invariant 0 <= i <= |calls| && fifo.Valid()
      invariant old(fifo.taken) <= fifo.taken && old(fifo.finished) <= fifo.finished
    {
      match calls[i] {
        case OpenRead =>
          var ok, index := fifo.ReadOpen();
        case CloseRead =>
          fifo.ReadClose();
        case OpenWrite =>
          var index := fifo.WriteOpen();
        case Filling(x) =>
          if fifo.openWrite {
            fifo.Fill(x);
          }
        case CloseWrite =>
          ghost var joined := fifo.WriteClose();
      }
      i := i + 1;
    }
    assert fifo.finished == fifo.taken + fifo.Queue();
  }
}
