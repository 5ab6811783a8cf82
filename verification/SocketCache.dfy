/** The receive cache of a socket: a circular buffer that behaves as a queue of bytes. */
module SocketCache {
  import opened Bytes

  const CACHE_SIZE: nat := 16384

  type Cache = c: seq<byte> | |c| == CACHE_SIZE witness seq(CACHE_SIZE, _ => 0)

  /** What ends a row of reads from the kernel: no data, a closed peer, or an error. */
  datatype Ending = WouldBlock | Closed | Failed

  /** The `size` bytes from `pos` on, wrapping at the end of the cache. */
  function Ring(c: Cache, pos: nat, size: nat): (s: seq<byte>)
    ensures |s| == size
  {
    seq(size, i requires 0 <= i => c[(pos + i) % CACHE_SIZE])
  }

  function Overwritten(c: Cache, start: nat, part: seq<byte>): Cache
    requires start + |part| <= CACHE_SIZE
  {
    c[..start] + part + c[start + |part|..]
  }

  lemma Wrap(n: nat)
    ensures n < CACHE_SIZE ==> n % CACHE_SIZE == n
    ensures CACHE_SIZE <= n < 2 * CACHE_SIZE ==> n % CACHE_SIZE == n - CACHE_SIZE
    ensures n == 2 * CACHE_SIZE ==> n % CACHE_SIZE == 0
  {
  }

  /** Bytes written behind the contents, short of the read position, extend the contents. */
  lemma RingGrows(c: Cache, pos: nat, size: nat, part: seq<byte>)
    requires pos <= CACHE_SIZE && size + |part| <= CACHE_SIZE && size < CACHE_SIZE
    requires (pos + size) % CACHE_SIZE + |part| <= CACHE_SIZE
    ensures Ring(Overwritten(c, (pos + size) % CACHE_SIZE, part), pos, size + |part|) == Ring(c, pos, size) + part
  {
    var start := (pos + size) % CACHE_SIZE;
    var c' := Overwritten(c, start, part);
    Wrap(pos + size);
    forall i | 0 <= i < size + |part|
      ensures c'[(pos + i) % CACHE_SIZE] == (Ring(c, pos, size) + part)[i]
    {
      Wrap(pos + i);
    }
  }

  /** Reading on past the first bytes leaves the others. */
  lemma RingShrinks(c: Cache, pos: nat, size: nat, n: nat)
    requires n <= size
    ensures Ring(c, pos + n, size - n) == Ring(c, pos, size)[n..]
  {
    var r, s := Ring(c, pos + n, size - n), Ring(c, pos, size)[n..];
    forall i | 0 <= i < size - n
      ensures r[i] == s[i]
    {
      assert pos + n + i == pos + (n + i);
    }
  }

  /** Positions a whole cache apart are the same. */
  lemma RingWraps(c: Cache, size: nat)
    requires size <= CACHE_SIZE
    ensures Ring(c, CACHE_SIZE, size) == Ring(c, 0, size) == c[..size]
  {
    var r, s := Ring(c, CACHE_SIZE, size), Ring(c, 0, size);
    forall i | 0 <= i < size
      ensures r[i] == s[i] == c[i]
    {
      Wrap(CACHE_SIZE + i);
    }
  }

  /** The contents start with the bytes from the read position to the end of the cache. */
  lemma RingFront(c: Cache, pos: nat, size: nat, n: nat)
    requires n <= size && pos + n <= CACHE_SIZE
    ensures c[pos..pos + n] == Ring(c, pos, size)[..n]
  {
  }

  predicate Repeats(s: seq<byte>) {
    forall i :: 0 <= i < |s| - CACHE_SIZE ==> s[i] == s[i + CACHE_SIZE]
  }

  /** A cache cannot hold more than its size: behind that its contents repeat. So an overfull cache
      can stand for what has been received iff that repeats with the cache's period. */
  lemma OverfullIff(pos: nat, received: seq<byte>)
    requires pos <= CACHE_SIZE
    ensures (exists c: Cache :: Ring(c, pos, |received|) == received) <==> Repeats(received)
  {
    hide Repeats, CacheOf;
    forall c: Cache | Ring(c, pos, |received|) == received
      ensures Repeats(received)
    {
      RingRepeats(c, pos, |received|);
    }
    if Repeats(received) {
      var c := CacheOf(pos, received);
      forall i | 0 <= i < |received|
        ensures Ring(c, pos, |received|)[i] == received[i]
      {
        CellOf(pos, received, i);
      }
      assert Ring(c, pos, |received|) == received;
    }
  }

  lemma RingRepeats(c: Cache, pos: nat, size: nat)
    ensures Repeats(Ring(c, pos, size))
  {
    var r := Ring(c, pos, size);
    forall i | 0 <= i < size - CACHE_SIZE
      ensures r[i] == r[i + CACHE_SIZE]
    {
      Lap(pos + i);
      assert pos + i + CACHE_SIZE == pos + (i + CACHE_SIZE);
    }
  }

  /** The cache with the first bytes received in their places. */
  function CacheOf(pos: nat, received: seq<byte>): Cache
    requires pos <= CACHE_SIZE
  {
    seq(CACHE_SIZE, k requires 0 <= k < CACHE_SIZE =>
      var i := (k + CACHE_SIZE - pos) % CACHE_SIZE;
      if i < |received| then received[i] else 0)
  }

  lemma Lap(n: nat)
    ensures (n + CACHE_SIZE) % CACHE_SIZE == n % CACHE_SIZE
  {
  }

  /** The cell of a byte tells which byte it is, up to whole caches. */
  lemma Home(pos: nat, i: nat)
    requires pos <= CACHE_SIZE && i < CACHE_SIZE
    ensures ((pos + i) % CACHE_SIZE + CACHE_SIZE - pos) % CACHE_SIZE == i
  {
    Wrap(pos + i);
    Wrap(i);
    Lap(i);
  }

  lemma {:induction false} CellOf(pos: nat, received: seq<byte>, i: nat)
    requires pos <= CACHE_SIZE && i < |received| && Repeats(received)
    ensures CacheOf(pos, received)[(pos + i) % CACHE_SIZE] == received[i]
  {
    if i < CACHE_SIZE {
      Home(pos, i);
    } else {
      CellOf(pos, received, i - CACHE_SIZE);
      Lap(pos + (i - CACHE_SIZE));
      assert pos + (i - CACHE_SIZE) + CACHE_SIZE == pos + i;
      assert received[i - CACHE_SIZE] == received[i - CACHE_SIZE + CACHE_SIZE];
    }
  }

  // ----- The queue that the cache stands for

  datatype Fifo = Fifo(contents: seq<byte>, error: bool)

  /** One call: an exact or a partial read, with what the kernel holds and whether it fails. */
  datatype Call = Call(exact: bool, num: int, queue: seq<byte>, fails: bool)

  /** Whether a call turns to the kernel for more. */
  predicate Fills(f: Fifo, c: Call) {
    !f.error && c.num >= 0 && (f.contents == [] || (c.exact && |f.contents| < c.num))
  }

  function Available(f: Fifo, c: Call): seq<byte> {
    f.contents + if Fills(f, c) then c.queue else []
  }

  predicate ErrorAfter(f: Fifo, c: Call) {
    f.error || (Fills(f, c) && c.fails)
  }

  /** An exact read returns all bytes asked for or none; a partial read what there is of them. */
  function Returned(f: Fifo, c: Call): (s: seq<byte>)
    ensures s <= Available(f, c)
    ensures c.exact ==> s == [] || |s| == c.num
  {
    var all := Available(f, c);
    if c.num < 0 then []
    else if c.exact then (if ErrorAfter(f, c) || |all| < c.num then [] else all[..c.num])
    else if f.error then [] else all[..Min(c.num, |all|)]
  }

  function AfterCall(f: Fifo, c: Call): Fifo {
    Fifo(Available(f, c)[|Returned(f, c)|..], ErrorAfter(f, c))
  }

  function AfterCalls(f: Fifo, cs: seq<Call>): Fifo
    decreases |cs|
  {
    if cs == [] then f else AfterCalls(AfterCall(f, cs[0]), cs[1..])
  }

  function AllReturned(f: Fifo, cs: seq<Call>): seq<byte>
    decreases |cs|
  {
    if cs == [] then [] else Returned(f, cs[0]) + AllReturned(AfterCall(f, cs[0]), cs[1..])
  }

  function AllReceived(f: Fifo, cs: seq<Call>): seq<byte>
    decreases |cs|
  {
    if cs == [] then [] else
      (if Fills(f, cs[0]) then cs[0].queue else []) + AllReceived(AfterCall(f, cs[0]), cs[1..])
  }

  /** A read that need not be exact returns what there is, up to what was asked for, and turns to the
      kernel only when there is nothing. */
  lemma PartialRead(f: Fifo, n: nat, queue: seq<byte>, fails: bool)
    ensures var c := Call(false, n, queue, fails);
            var all := if f.contents == [] && !f.error then queue else f.contents;
            if f.error then Returned(f, c) == [] && AfterCall(f, c) == f
            else if n <= |all| then Returned(f, c) == all[..n] && AfterCall(f, c).contents == all[n..]
            else Returned(f, c) == all && AfterCall(f, c).contents == []
  {
    var c := Call(false, n, queue, fails);
    assert [] + queue == queue && f.contents + [] == f.contents;
    assert Available(f, c) == if f.contents == [] && !f.error then queue else f.contents;
  }

  /** An exact read returns as many bytes as were asked for, if they are there or come in; it turns
      to the kernel only when they are not, and what has come in then stays. */
  lemma ExactRead(f: Fifo, n: nat, queue: seq<byte>, fails: bool)
    requires n > 0 && !f.error
    ensures var c := Call(true, n, queue, fails);
            var all := f.contents + queue;
            if n <= |f.contents| then
              Returned(f, c) == f.contents[..n] && AfterCall(f, c) == Fifo(f.contents[n..], false)
            else if n <= |all| && !fails then
              Returned(f, c) == all[..n] && AfterCall(f, c) == Fifo(all[n..], false)
            else
              Returned(f, c) == [] && AfterCall(f, c) == Fifo(all, fails)
  {
    assert f.contents + [] == f.contents;
  }

  /** A read of no bytes only fills a cache that is empty, and one of less than none does nothing. */
  lemma EmptyRead(f: Fifo, exact: bool, n: int, queue: seq<byte>, fails: bool)
    requires n <= 0
    ensures var c := Call(exact, n, queue, fails);
            && Returned(f, c) == []
            && AfterCall(f, c) == if n == 0 && f.contents == [] && !f.error then Fifo(queue, fails) else f
  {
    assert [] + queue == queue && f.contents + [] == f.contents;
  }

  /** Over any run of calls nothing is lost, repeated or reordered: what has been returned and what
      is left are what was there and what has been received. */
  lemma {:induction false} CallsConserve(f: Fifo, cs: seq<Call>)
    ensures AllReturned(f, cs) + AfterCalls(f, cs).contents == f.contents + AllReceived(f, cs)
    decreases |cs|
  {
    hide Fills, Returned;
    if cs == [] {
    } else {
      var next := AfterCall(f, cs[0]);
      var got, in1 := Returned(f, cs[0]), if Fills(f, cs[0]) then cs[0].queue else [];
      CallsConserve(next, cs[1..]);
      ConcatAssociative(got, AllReturned(next, cs[1..]), AfterCalls(next, cs[1..]).contents);
      ConcatAssociative(got, next.contents, AllReceived(next, cs[1..]));
      assert got + next.contents == f.contents + in1;
      ConcatAssociative(f.contents, in1, AllReceived(next, cs[1..]));
    }
  }

  // ----- Where the kernel's answer ends

  /** How many bytes the first read from the kernel asks for, and the second: up to the read position
      or to the end of the cache. */
  function FirstRead(pos: nat, size: nat): (n: nat)
    requires pos <= CACHE_SIZE
    ensures n > 0
  {
    var start := (pos + size) % CACHE_SIZE;
    if start < pos then pos - start else CACHE_SIZE - start
  }

  function NextRead(pos: nat): (n: nat)
    requires pos <= CACHE_SIZE
    ensures n > 0
  {
    if pos > 0 then pos else CACHE_SIZE
  }

  /** The kernel is asked once more behind `n` bytes: a read that asks for more than there is ends
      the row of reads, one that gets all it asks for does not. */
  predicate AsksAgain(pos: nat, size: nat, n: nat)
    requires pos <= CACHE_SIZE
  {
    n == 0 || (n >= FirstRead(pos, size) && (n - FirstRead(pos, size)) % NextRead(pos) == 0)
  }

  /** A failure behind `n` bytes is noticed. */
  predicate FillFails(pos: nat, size: nat, n: nat, ending: Ending)
    requires pos <= CACHE_SIZE
  {
    ending == Failed && AsksAgain(pos, size, n)
  }

  /** Where the reads go behind `taken` bytes. */
  predicate Reads(pos: nat, size: nat, start: nat, taken: nat) {
    start == if taken == 0 then (pos + size) % CACHE_SIZE else 0
  }

  /** From a place where the kernel is asked again the next such place is one read further. */
  lemma NextAsked(pos: nat, size: nat, start: nat, taken: nat, d: nat)
    requires pos <= CACHE_SIZE && start < CACHE_SIZE && AsksAgain(pos, size, taken) && Reads(pos, size, start, taken)
    requires d <= (if start < pos then pos else CACHE_SIZE) - start
    ensures d > 0 ==> (AsksAgain(pos, size, taken + d) <==> d == (if start < pos then pos else CACHE_SIZE) - start)
  {
    var first, next := FirstRead(pos, size), NextRead(pos);
    if taken == 0 {
      if d == first {
        Division(0, next, 0, 0);
      }
    } else {
      var q := (taken - first) / next;
      assert taken - first == next * q;
      if d == next {
        assert next * q + next == next * (q + 1);
        Division(taken + d - first, next, q + 1, 0);
      } else {
        Division(taken + d - first, next, q, d);
      }
    }
  }

  lemma MoreTaken(before: seq<byte>, queue: seq<byte>, taken: nat, n: nat)
    requires taken + n <= |queue|
    ensures before + queue[..taken] + queue[taken..taken + n] == before + queue[..taken + n]
  {
    assert queue[..taken] + queue[taken..taken + n] == queue[..taken + n];
  }

  lemma AskedFirst(pos: nat, size: nat)
    requires pos <= CACHE_SIZE
    ensures AsksAgain(pos, size, 0) && Reads(pos, size, (pos + size) % CACHE_SIZE, 0)
  {
  }

  class Socket {
    const cache: array<byte>
    var size: nat
    var pos: nat
    var error: bool

    ghost predicate Valid()
      reads this
    {
      cache.Length == CACHE_SIZE && pos <= CACHE_SIZE && size <= CACHE_SIZE
    }

    /** The unprocessed bytes. */
    ghost function Contents(): seq<byte>
      reads this, cache
      requires cache.Length == CACHE_SIZE
    {
      Ring(cache[..], pos, size)
    }

    ghost function Abstract(): Fifo
      reads this, cache
      requires cache.Length == CACHE_SIZE
    {
      Fifo(Contents(), error)
    }

    constructor ()
      ensures Valid() && fresh(cache) && Contents() == [] && !error
    {
      cache := new byte[CACHE_SIZE](_ => 0);
      size, pos, error := 0, 0, false;
    }

    /** Takes in `queue`, the bytes that the kernel holds for this socket. They join the contents
        iff they fit; otherwise the loop runs over unread bytes and the size over the cache. */
    method FillCache(queue: seq<byte>, ending: Ending)
      requires Valid()
      modifies this`size, this`error, cache
      ensures size == old(size) + |queue|
      ensures Valid() <==> old(size) + |queue| <= CACHE_SIZE
      ensures Valid() ==> Contents() == old(Contents()) + queue
      ensures error == (old(error) || FillFails(pos, old(size), |queue|, ending))
    {
      hide Ring, Overwritten, AsksAgain, FirstRead, NextRead;
      ghost var before := Contents();
      AskedFirst(pos, size);
      var start: nat := (pos + size) % CACHE_SIZE;
      var taken: nat := 0;
      assert before + queue[..0] == before;
      while true
        invariant taken <= |queue| && size == old(size) + taken
        invariant cache.Length == CACHE_SIZE && pos <= CACHE_SIZE && start < CACHE_SIZE && error == old(error)
        invariant AsksAgain(pos, old(size), taken) && Reads(pos, old(size), start, taken)
        invariant size < CACHE_SIZE ==> start == (pos + size) % CACHE_SIZE
        invariant size <= CACHE_SIZE ==> Contents() == before + queue[..taken]
        decreases |queue| - taken
      {
        var end := if start < pos then pos else CACHE_SIZE;
        var thisRead := end - start;
        if taken == |queue| && !ending.Closed? {
          if ending.Failed? {
            error := true;
          }
          break;
        }
        var bytesRead := Min(thisRead, |queue| - taken);
        NextAsked(pos, old(size), start, taken, bytesRead);
        var part := queue[taken..taken + bytesRead];
        Receive(start, part);
        MoreTaken(before, queue, taken, bytesRead);
        taken := taken + bytesRead;
        if bytesRead < thisRead {
          break;
        }
        start := 0;
      }
      assert queue[..taken] == queue;
    }

    /** One read from the kernel to the part of the cache from `start` on. */
    method Receive(start: nat, part: seq<byte>)
      requires cache.Length == CACHE_SIZE && start + |part| <= CACHE_SIZE
      modifies this`size, cache
      ensures cache[..] == Overwritten(old(cache[..]), start, part)
      ensures size == old(size) + |part|
      ensures start == (pos + old(size)) % CACHE_SIZE && pos <= CACHE_SIZE &&
              old(size) < CACHE_SIZE && size <= CACHE_SIZE ==>
                Contents() == old(Contents()) + part
      ensures part == [] ==> Contents() == old(Contents())
    {
      ghost var c: Cache := cache[..];
      forall i | 0 <= i < |part| {
        cache[start + i] := part[i];
      }
      size := size + |part|;
      assert cache[..] == Overwritten(c, start, part);
      if start == (pos + old(size)) % CACHE_SIZE && pos <= CACHE_SIZE && old(size) < CACHE_SIZE && size <= CACHE_SIZE {
        RingGrows(c, pos, old(size), part);
      }
    }

    /** Copies `n` bytes that lie in one piece to `dst`, and moves the read position behind them. */
    method TakePiece(dst: array<byte>, at: nat, from: nat, n: nat)
      requires Valid() && dst != cache && at + n <= dst.Length
      requires from + n <= CACHE_SIZE && n <= size
      requires from == pos || (pos == CACHE_SIZE && from == 0)
      modifies this`size, this`pos, dst
      ensures Valid() && pos == from + n
      ensures dst[..at + n] == old(dst[..at]) + old(Contents())[..n] && dst[at + n..] == old(dst[at + n..])
      ensures Contents() == old(Contents())[n..]
    {
      hide Ring;
      ghost var c: Cache := cache[..];
      if from != pos {
        RingWraps(c, size);
      }
      RingFront(c, from, size, n);
      RingShrinks(c, from, size, n);
      forall i | 0 <= i < n {
        dst[at + i] := cache[from + i];
      }
      assert dst[at..at + n] == c[from..from + n];
      assert dst[..at + n] == dst[..at] + dst[at..at + n];
      assert cache[..] == c;
      pos := from + n;
      size := size - n;
    }

    /** Up to `num` bytes from the front of the queue. An empty cache is filled first. */
    method ReadNonBlocking(dst: array<byte>, num: nat, queue: seq<byte>, ending: Ending) returns (n: nat)
      requires Valid() && num <= dst.Length && dst != cache
      requires size == 0 ==> |queue| <= CACHE_SIZE
      modifies this`size, this`pos, this`error, cache, dst
      ensures Valid() && n <= num && dst[n..] == old(dst[n..])
      ensures var f := old(Abstract());
              var c := Call(false, num, queue, FillFails(old(pos), old(size), |queue|, ending));
              dst[..n] == Returned(f, c) && Abstract() == AfterCall(f, c)
    {
      hide Ring;
      if error {
        return 0;
      }
      if size == 0 && !error {
        FillCache(queue, ending);
        assert [] + queue == queue;
      }
      var canRead := Min(size, num);
      TakeFront(dst, canRead);
      return canRead;
    }

    /** Copies `n` bytes in one or two pieces: up to the end of the cache, then from its start. */
    method TakeFront(dst: array<byte>, n: nat)
      requires Valid() && n <= size && n <= dst.Length && dst != cache
      modifies this`size, this`pos, dst
      ensures Valid() && dst[..n] == old(Contents())[..n] && dst[n..] == old(dst[n..])
      ensures Contents() == old(Contents())[n..]
    {
      hide Ring;
      ghost var all := Contents();
      var toRead := n;
      var thisRead := Min(n, CACHE_SIZE - pos);
      TakePiece(dst, 0, pos, thisRead);
      toRead := toRead - thisRead;
      if toRead > 0 {
        ghost var after := dst[thisRead..];
        TakePiece(dst, thisRead, 0, toRead);
        assert dst[n..] == after[toRead..];
        assert all[..thisRead] + all[thisRead..][..toRead] == all[..n];
        assert all[thisRead..][toRead..] == all[n..];
      }
    }

    /** Exactly `num` bytes from the front of the queue, or none. */
    method Read(dst: array<byte>, num: int, queue: seq<byte>, ending: Ending) returns (n: nat)
      requires Valid() && num <= dst.Length && dst != cache
      requires size + |queue| <= CACHE_SIZE
      modifies this`size, this`pos, this`error, cache, dst
      ensures Valid() && (n == 0 || n == num) && dst[n..] == old(dst[n..])
      ensures var f := old(Abstract());
              var c := Call(true, num, queue, FillFails(old(pos), old(size), |queue|, ending));
              dst[..n] == Returned(f, c) && Abstract() == AfterCall(f, c)
    {
      hide Ring;
      if num < 0 {
        return 0;
      }
      if size < num && !error {
        FillCache(queue, ending);
      }
      if size < num {
        return 0;
      }
      n := ReadNonBlocking(dst, num, queue, ending);
    }
  }
}
