/**
 The three bounded histories: the webhook ring buffer, the request log's
 append-then-trim slice and the AMQP store's drop-then-append slice. Each shows
 the most recent items added since it was last cleared, oldest first.
 */
module History {

  /** The last `n` items, or all of them. */
  function LastN<T>(s: seq<T>, n: nat): (r: seq<T>)
    ensures |r| == if |s| < n then |s| else n
  {
    if |s| <= n then s else s[|s| - n..]
  }

  function Capacity(size: int, default: nat): nat {
    if size <= 0 then default else size
  }

  lemma TrimKeepsLast<T>(added: seq<T>, x: T, n: nat)
    ensures LastN(LastN(added, n) + [x], n) == LastN(added + [x], n)
  {
  }

  lemma DropFirstKeepsLast<T>(added: seq<T>, x: T, n: nat)
    requires n > 0
    ensures var kept := LastN(added, n);
            (if |kept| >= n then kept[1..] else kept) + [x] == LastN(added + [x], n)
  {
  }

  /** The `i`th slot from `head` in a ring of `n`. */
  function Slot(head: nat, i: nat, n: nat): (k: nat)
    requires head < n && i <= n
    ensures k < n
  {
    if head + i < n then head + i else head + i - n
  }

  lemma SlotIsModulo(head: nat, i: nat, n: nat)
    requires head < n && i <= n
    ensures (head + i) % n == Slot(head, i, n)
  {
    var x := head + i;
    var q, r := x / n, x % n;
    assert x == n * q + r;
    Multiples(n, q);
  }

  lemma Multiples(n: nat, q: nat)
    ensures q == 0 ==> n * q == 0
    ensures q == 1 ==> n * q == n
    ensures q >= 2 ==> n * q >= 2 * n
  {
    if q >= 2 {
      assert n * q == 2 * n + n * (q - 2);
    }
  }

  /** Read from `head`, the ring `b` holds `kept`. */
  ghost predicate Holds<T>(b: seq<T>, head: nat, kept: seq<T>) {
    && head < |b| && |kept| <= |b|
    && forall i | 0 <= i < |kept| :: b[Slot(head, i, |b|)] == kept[i]
  }

  lemma RingAdd<T>(b: seq<T>, head: nat, kept: seq<T>, x: T)
    requires Holds(b, head, kept)
    ensures var after := b[Slot(head, |kept|, |b|) := x];
            if |kept| == |b| then Holds(after, Slot(head, 1, |b|), kept[1..] + [x]) else Holds(after, head, kept + [x])
  {
    var n := |b|;
    if |kept| == n {
      assert forall i | 0 <= i < n - 1 :: Slot(Slot(head, 1, n), i, n) == Slot(head, i + 1, n);
    }
  }

  /** The ring buffer of webhook records. */
  class RingBuffer<T(0)> {
    const buf: array<T>
    const maxSize: nat
    var head: nat
    var count: nat
    ghost var added: seq<T>

    ghost predicate Valid()
      reads this, buf
    {
      && maxSize > 0 && buf.Length == maxSize
      && count == |LastN(added, maxSize)|
      && Holds(buf[..], head, LastN(added, maxSize))
    }

    constructor (size: int)
      ensures Valid() && fresh(buf) && maxSize == Capacity(size, 500) && added == []
    {
      maxSize := Capacity(size, 500);
      buf := new T[Capacity(size, 500)];
      head, count, added := 0, 0, [];
    }

    method Add(x: T)
      requires Valid()
      modifies this, buf
      ensures Valid() && added == old(added) + [x]
    {
      DropFirstKeepsLast(added, x, maxSize);
      RingAdd(buf[..], head, LastN(added, maxSize), x);
      SlotIsModulo(head, count, maxSize);
      SlotIsModulo(head, 1, maxSize);
      var tail := (head + count) % maxSize;
      ghost var after := buf[..][tail := x];
      buf[tail] := x;
      assert buf[..] == after;
      added := added + [x];
      if count == maxSize {
        head := (head + 1) % maxSize;
      } else {
        count := count + 1;
      }
    }

    method All() returns (out: seq<T>)
      requires Valid()
      ensures out == LastN(added, maxSize)
    {
      out := [];
      for i := 0 to count
        invariant |out| == i
        invariant forall j | 0 <= j < i :: out[j] == LastN(added, maxSize)[j]
      {
        SlotIsModulo(head, i, maxSize);
        out := out + [buf[(head + i) % maxSize]];
      }
    }

    method Clear()
      requires Valid()
      modifies this
      ensures Valid() && added == []
    {
      head, count, added := 0, 0, [];
    }
  }

  /** The request log's entries. */
  class TrimmedLog<T> {
    const maxEntries: nat
    var entries: seq<T>
    ghost var added: seq<T>

    ghost predicate Valid()
      reads this
    {
      maxEntries > 0 && entries == LastN(added, maxEntries)
    }

    constructor (size: int)
      ensures Valid() && maxEntries == Capacity(size, 500) && added == []
    {
      maxEntries, entries, added := Capacity(size, 500), [], [];
    }

    method Append(e: T)
      requires Valid()
      modifies this
      ensures Valid() && added == old(added) + [e]
    {
      TrimKeepsLast(added, e, maxEntries);
      entries := entries + [e];
      if |entries| > maxEntries {
        entries := entries[|entries| - maxEntries..];
      }
      added := added + [e];
    }

    method Clear()
      requires Valid()
      modifies this
      ensures Valid() && added == []
    {
      entries, added := [], [];
    }
  }

  /** The AMQP message store. */
  class MessageStore<T> {
    const maxSize: nat
    var messages: seq<T>
    ghost var added: seq<T>

    ghost predicate Valid()
      reads this
    {
      maxSize > 0 && messages == LastN(added, maxSize)
    }

    constructor (size: int)
      ensures Valid() && maxSize == Capacity(size, 1000) && added == []
    {
      maxSize, messages, added := Capacity(size, 1000), [], [];
    }

    method Add(m: T)
      requires Valid()
      modifies this
      ensures Valid() && added == old(added) + [m]
    {
      DropFirstKeepsLast(added, m, maxSize);
      if |messages| >= maxSize {
        messages := messages[1..];
      }
      messages := messages + [m];
      added := added + [m];
    }

    method Clear()
      requires Valid()
      modifies this
      ensures Valid() && added == []
    {
      messages, added := [], [];
    }
  }

  datatype Op<T> = Add(x: T) | Clear

  function SinceClear<T>(ops: seq<Op<T>>): seq<T> {
    if ops == [] then []
    else
      var n := |ops| - 1;
      match ops[n]
      case Add(x) => SinceClear(ops[..n]) + [x]
      case Clear => []
  }

  /** The same adds and clears leave all three showing the same items. */
  method Replay<T(0)>(ops: seq<Op<T>>, size: nat) returns (ring: seq<T>, log: seq<T>, store: seq<T>)
    requires size > 0
    ensures ring == log == store == LastN(SinceClear(ops), size)
  {
    var a := new RingBuffer<T>(size);
    var b := new TrimmedLog<T>(size);
    var c := new MessageStore<T>(size);
    for i := 0 to |ops|
      invariant a.Valid() && b.Valid() && c.Valid() && fresh(a) && fresh(a.buf) && fresh(b) && fresh(c)
      invariant a.added == b.added == c.added == SinceClear(ops[..i])
    {
      assert ops[..i + 1][..i] == ops[..i];
      match ops[i] {
        case Add(x) =>
          a.Add(x);
          b.Append(x);
          c.Add(x);
        case Clear =>
          a.Clear();
          b.Clear();
          c.Clear();
      }
    }
    assert ops[..|ops|] == ops;
    ring := a.All();
    return ring, b.entries, c.messages;
  }
}
