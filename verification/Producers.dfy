/**
 Routing and batches across partitions: a keyed record goes where its key hashes to, a keyless
 one where the topic's round-robin counter points, and a batch is scattered into one append per
 partition whose offsets are gathered back in input order.
 */
module Producers {
  import opened ByteStrings
  import opened Compressions
  import opened Logs
  import opened Partitions
  import opened Records

  datatype Position = Position(partition: nat, offset: nat)

  // A record of a batch with its place in the caller's input.
  datatype Slot = Slot(index: nat, record: Record)

  // ---------------------------------------------------------------- routing

  // The counter is a u64 that wraps.
  function Wrapped(x: nat): (w: nat)
    ensures w < TWO_64
  {
    x % TWO_64
  }

  lemma WrappedAdd(x: nat, y: nat)
    ensures Wrapped(Wrapped(x) + y) == Wrapped(x + y)
  {
  }

  lemma WrappedOnce(x: nat)
    ensures x < TWO_64 ==> Wrapped(x) == x
    ensures TWO_64 <= x < 2 * TWO_64 ==> Wrapped(x) == x - TWO_64
  {
  }

  function Pick(ticket: nat, n: nat): (p: nat)
    requires n > 0
    ensures p < n
  {
    ticket % n
  }

  function Sum(bumps: seq<nat>, m: nat): (n: nat)
    requires m <= |bumps|
  {
    if m == 0 then 0 else Sum(bumps, m - 1) + bumps[m - 1]
  }

  function Keyless(records: seq<Record>, m: nat): (n: nat)
    requires m <= |records|
  {
    if m == 0 then 0 else Keyless(records, m - 1) + if records[m - 1].key.None? then 1 else 0
  }

  // The counter as record `i` is routed: it wraps at 64 bits, and `bumps[i]` keyless sends of
  // other producers came in just before.
  function Ticket(counter: nat, bumps: seq<nat>, records: seq<Record>, i: nat): (t: nat)
    requires i < |bumps| == |records|
  {
    Wrapped(counter + Sum(bumps, i + 1) + Keyless(records, i))
  }

  // The counter after the first `m` records.
  function CounterAfter(counter: nat, bumps: seq<nat>, records: seq<Record>, m: nat): (c: nat)
    requires m <= |bumps| == |records|
    ensures c < TWO_64
  {
    Wrapped(counter + Sum(bumps, m) + Keyless(records, m))
  }

  lemma CounterStep(counter: nat, bumps: seq<nat>, records: seq<Record>, i: nat)
    requires i < |bumps| == |records|
    ensures Ticket(counter, bumps, records, i) == Wrapped(CounterAfter(counter, bumps, records, i) + bumps[i])
    ensures CounterAfter(counter, bumps, records, i + 1)
         == if records[i].key.None? then Wrapped(Ticket(counter, bumps, records, i) + 1)
            else Ticket(counter, bumps, records, i)
  {
    hide Wrapped;
    var total := counter + Sum(bumps, i) + Keyless(records, i);
    WrappedAdd(total, bumps[i]);
    WrappedAdd(total + bumps[i], 1);
    assert Sum(bumps, i + 1) == Sum(bumps, i) + bumps[i];
    assert Keyless(records, i + 1) == Keyless(records, i) + if records[i].key.None? then 1 else 0;
    assert counter + Sum(bumps, i + 1) + Keyless(records, i) == total + bumps[i];
  }

  lemma CounterStarts(counter: nat, bumps: seq<nat>, records: seq<Record>)
    requires counter < TWO_64 && |bumps| == |records|
    ensures CounterAfter(counter, bumps, records, 0) == counter
  {
  }

  function RouteOf(hash: Bytes -> nat, n: nat, ticket: nat, key: Option<Bytes>): (p: nat)
    requires n > 0
    ensures p < n
  {
    match key
    case Some(k) => hash(k) % n
    case None => Pick(ticket, n)
  }

  /**
   Routing is the key's hash, or the ticket, modulo the partition count; the counter wraps at 64
   bits. So two keyed records share a partition exactly when their hashes agree modulo the count.
   */
  lemma RouteIs(hash: Bytes -> nat, n: nat, t: nat, u: nat, k: Bytes, l: Bytes)
    requires n > 0
    ensures RouteOf(hash, n, t, Some(k)) == hash(k) % n && RouteOf(hash, n, t, None) == t % n
    ensures RouteOf(hash, n, t, Some(k)) == RouteOf(hash, n, u, Some(l)) <==> hash(k) % n == hash(l) % n
    ensures Wrapped(t) == t % 0x1_0000_0000_0000_0000
  {
  }

  function Routes(hash: Bytes -> nat, n: nat, counter: nat, bumps: seq<nat>, records: seq<Record>): (routes: seq<nat>)
    requires n > 0 && |bumps| == |records|
    ensures |routes| == |records|
    ensures forall i :: 0 <= i < |routes| ==> routes[i] < n
  {
    seq(|records|, i requires 0 <= i < |records| =>
      RouteOf(hash, n, Ticket(counter, bumps, records, i), records[i].key))
  }

  lemma RouteAt(hash: Bytes -> nat, n: nat, counter: nat, bumps: seq<nat>, records: seq<Record>, i: nat)
    requires n > 0 && i < |bumps| == |records|
    ensures Routes(hash, n, counter, bumps, records)[i]
         == RouteOf(hash, n, Ticket(counter, bumps, records, i), records[i].key)
  {
  }

  // ---------------------------------------------------------------- buckets

  // How many of the first `m` records go to `p`.
  function Count(routes: seq<nat>, p: nat, m: nat): (c: nat)
    requires m <= |routes|
  {
    if m == 0 then 0 else Count(routes, p, m - 1) + if routes[m - 1] == p then 1 else 0
  }

  function Bucket(routes: seq<nat>, records: seq<Record>, p: nat, m: nat): (slots: seq<Slot>)
    requires m <= |routes| == |records|
  {
    if m == 0 then [] else
    var before := Bucket(routes, records, p, m - 1);
    if routes[m - 1] == p then before + [Slot(m - 1, records[m - 1])] else before
  }

  function RecordsIn(slots: seq<Slot>): (records: seq<Record>)
    ensures |records| == |slots|
  {
    seq(|slots|, k requires 0 <= k < |slots| => slots[k].record)
  }

  /** A bucket lists its partition's records in input order: the k-th slot is the record with k before it. */
  lemma {:induction false} SlotIs(routes: seq<nat>, records: seq<Record>, p: nat, m: nat, k: nat)
    requires m <= |routes| == |records|
    ensures |Bucket(routes, records, p, m)| == Count(routes, p, m)
    ensures k < Count(routes, p, m) ==>
              var slot := Bucket(routes, records, p, m)[k];
              && slot.index < m && routes[slot.index] == p
              && slot.record == records[slot.index] && Count(routes, p, slot.index) == k
    decreases m
  {
    if m > 0 {
      SlotIs(routes, records, p, m - 1, k);
    }
  }

  lemma {:induction false} CountGrows(routes: seq<nat>, p: nat, i: nat, j: nat)
    requires i < j <= |routes|
    ensures Count(routes, p, i) <= Count(routes, p, j)
    ensures routes[i] == p ==> Count(routes, p, i) < Count(routes, p, j)
    decreases j
  {
    if i < j - 1 {
      CountGrows(routes, p, i, j - 1);
    }
  }

  lemma SlotOf(routes: seq<nat>, records: seq<Record>, i: nat)
    requires i < |routes| == |records|
    ensures var k := Count(routes, routes[i], i);
            && k < |Bucket(routes, records, routes[i], |routes|)|
            && Bucket(routes, records, routes[i], |routes|)[k] == Slot(i, records[i])
  {
    var p := routes[i];
    var k := Count(routes, p, i);
    CountGrows(routes, p, i, |routes|);
    SlotIs(routes, records, p, |routes|, k);
    var j := Bucket(routes, records, p, |routes|)[k].index;
    if i < j {
      CountGrows(routes, p, i, j);
    } else if j < i {
      CountGrows(routes, p, j, i);
    }
  }

  // ---------------------------------------------------------------- what a batch amounts to

  // The log of each partition when the batch reaches its writer, after what others sent first.
  function Met(codec: Codec, logs: seq<PlainLog>, arrivals: seq<seq<Command>>): (met: seq<PlainLog>)
    requires |logs| == |arrivals|
    ensures |met| == |logs|
  {
    seq(|logs|, p requires 0 <= p < |logs| => ExecAll(codec, logs[p], arrivals[p]).log)
  }

  // Why the append to `p` fails, if it does: its writer is gone or the codec is not in the build.
  function Failure(codec: Codec, down: bool, bucket: seq<Slot>): (e: Option<Error>) {
    if bucket == [] then None
    else if down then Some(Closed)
    else if codec.available then None
    else Some(CompressionUnavailable(codec.compression))
  }

  function PositionOf(met: seq<PlainLog>, routes: seq<nat>, i: nat): (at: Position)
    requires i < |routes| && routes[i] < |met|
  {
    Position(routes[i], met[routes[i]].Next() + Count(routes, routes[i], i))
  }

  function Received(log: PlainLog, bucket: seq<Slot>): (after: PlainLog) {
    log.(history := log.history + RecordsIn(bucket))
  }

  // Partitions before `stop` hold all their records of the batch, the others none of theirs.
  ghost predicate WrittenUpTo(codec: Codec, down: seq<bool>, routes: seq<nat>, records: seq<Record>,
                              met: seq<PlainLog>, logs: seq<PlainLog>, stop: nat)
    requires |routes| == |records| && stop <= |met| == |logs| == |down|
  {
    && (forall p :: 0 <= p < stop ==> Failure(codec, down[p], Bucket(routes, records, p, |records|)).None?)
    && (forall p :: 0 <= p < stop ==> logs[p] == Received(met[p], Bucket(routes, records, p, |records|)))
    && (forall p :: stop <= p < |logs| ==> logs[p] == met[p])
  }

  lemma NotYetWritten(codec: Codec, down: seq<bool>, routes: seq<nat>, records: seq<Record>, met: seq<PlainLog>)
    requires |routes| == |records| && |met| == |down|
    ensures WrittenUpTo(codec, down, routes, records, met, met, 0)
  {
  }

  lemma WrittenOthers(codec: Codec, down: seq<bool>, routes: seq<nat>, records: seq<Record>, met: seq<PlainLog>,
                      logs: seq<PlainLog>, p: nat)
    requires |routes| == |records| && p < |met| == |logs| == |down|
    requires WrittenUpTo(codec, down, routes, records, met, logs, p)
    ensures logs[p] == met[p]
  {
    hide Failure, Received, Bucket;
  }

  lemma WrittenAt(codec: Codec, down: seq<bool>, routes: seq<nat>, records: seq<Record>, met: seq<PlainLog>,
                  logs: seq<PlainLog>, stop: nat, p: nat)
    requires |routes| == |records| && p < stop <= |met| == |logs| == |down|
    requires WrittenUpTo(codec, down, routes, records, met, logs, stop)
    ensures logs[p] == Received(met[p], Bucket(routes, records, p, |records|))
  {
    hide Failure, Received, Bucket;
  }

  lemma WrittenOneMore(codec: Codec, down: seq<bool>, routes: seq<nat>, records: seq<Record>, met: seq<PlainLog>,
                       logs: seq<PlainLog>, after: seq<PlainLog>, p: nat)
    requires |routes| == |records| && p < |met| == |logs| == |after| == |down|
    requires WrittenUpTo(codec, down, routes, records, met, logs, p)
    requires Failure(codec, down[p], Bucket(routes, records, p, |records|)).None?
    requires after == logs[p := Received(met[p], Bucket(routes, records, p, |records|))]
    ensures WrittenUpTo(codec, down, routes, records, met, after, p + 1)
  {
    hide Failure, Received, Bucket;
  }

  /** The position given back for a record is where that record can be read. */
  lemma PositionHoldsTheRecord(log: PlainLog, routes: seq<nat>, records: seq<Record>, i: nat)
    requires i < |routes| == |records| && log.origin <= log.first <= log.Next()
    ensures Received(log, Bucket(routes, records, routes[i], |routes|)).Read(log.Next() + Count(routes, routes[i], i))
         == Some(records[i])
  {
    hide Bucket, Count;
    SlotOf(routes, records, i);
  }

  /** Positions are pairwise distinct, and within a partition they follow input order. */
  lemma PositionsFollowInput(met: seq<PlainLog>, routes: seq<nat>, i: nat, j: nat)
    requires i < j < |routes| && routes[i] < |met| && routes[j] < |met|
    ensures PositionOf(met, routes, i) != PositionOf(met, routes, j)
    ensures routes[i] == routes[j] ==> PositionOf(met, routes, i).offset < PositionOf(met, routes, j).offset
  {
    CountGrows(routes, routes[i], i, j);
  }

  /** Records of one key share a partition and keep their order, whatever other producers do. */
  lemma KeyOrderIsKept(hash: Bytes -> nat, met: seq<PlainLog>, counter: nat, bumps: seq<nat>, records: seq<Record>,
                       i: nat, j: nat)
    requires i < j < |records| == |bumps| && |met| > 0 && records[i].key.Some? && records[i].key == records[j].key
    ensures var routes := Routes(hash, |met|, counter, bumps, records);
            && PositionOf(met, routes, i).partition == PositionOf(met, routes, j).partition
            && PositionOf(met, routes, i).offset < PositionOf(met, routes, j).offset
  {
    hide Count;
    PositionsFollowInput(met, Routes(hash, |met|, counter, bumps, records), i, j);
  }

  // ---------------------------------------------------------------- the round-robin spread

  // Keyless records of the first `m` that went to `p`.
  function KeylessCount(routes: seq<nat>, records: seq<Record>, p: nat, m: nat): (c: nat)
    requires m <= |routes| == |records|
  {
    if m == 0 then 0 else
    KeylessCount(routes, records, p, m - 1) + if records[m - 1].key.None? && routes[m - 1] == p then 1 else 0
  }

  // The share of `p` among `t` tickets in a row from `counter`.
  function Share(n: nat, counter: nat, p: nat, t: nat): (c: nat)
    requires n > 0
  {
    if t == 0 then 0 else Share(n, counter, p, t - 1) + if Pick(Wrapped(counter + t - 1), n) == p then 1 else 0
  }

  // The number of x below `end` with x % n == p.
  function Below(n: nat, p: nat, end: nat): (c: nat)
    requires n > 0
  {
    end / n + if p < end % n then 1 else 0
  }

  lemma NextQuotient(x: nat, n: nat)
    requires n > 0
    ensures x % n == n - 1 ==> (x + 1) / n == x / n + 1 && (x + 1) % n == 0
    ensures x % n != n - 1 ==> (x + 1) / n == x / n && (x + 1) % n == x % n + 1
  {
    var q, r := x / n, x % n;
    assert x == n * q + r;
    if r == n - 1 {
      assert x + 1 == n * (q + 1) + 0;
      DivModUnique(x + 1, n, q + 1, 0);
    } else {
      DivModUnique(x + 1, n, q, r + 1);
    }
  }

  lemma DivModUnique(x: nat, n: nat, q: nat, r: nat)
    requires r < n && x == n * q + r
    ensures x / n == q && x % n == r
  {
    var d := x / n - q;
    assert x == n * (x / n) + x % n;
    assert n * (x / n) - n * q == n * d;
    assert d >= 1 ==> n * d >= n;
    assert d <= -1 ==> n * d + n <= 0;
    assert d == 0;
  }

  lemma OneMoreBelow(n: nat, p: nat, x: nat)
    requires p < n
    ensures Below(n, p, x + 1) == Below(n, p, x) + if Pick(x, n) == p then 1 else 0
  {
    NextQuotient(x, n);
  }

  /** The share of a partition: before the counter wraps, and across one wrap. */
  lemma {:induction false} ShareIs(n: nat, counter: nat, p: nat, t: nat)
    requires p < n && counter < TWO_64 && t <= TWO_64
    ensures counter + t <= TWO_64 ==> Share(n, counter, p, t) == Below(n, p, counter + t) - Below(n, p, counter)
    ensures counter + t >= TWO_64 ==>
              Share(n, counter, p, t) == Below(n, p, TWO_64) - Below(n, p, counter) + Below(n, p, counter + t - TWO_64)
    decreases t
  {
    NothingBelow(n, p);
    hide Below, Pick, Wrapped;
    if t > 0 {
      ShareIs(n, counter, p, t - 1);
      var x := counter + t - 1;
      WrappedOnce(x);
      OneMoreBelow(n, p, Wrapped(x));
    }
  }

  lemma NothingBelow(n: nat, p: nat)
    requires n > 0
    ensures Below(n, p, 0) == 0
  {
    DivModUnique(0, n, 0, 0);
  }

  ghost predicate EvenShares(n: nat, counter: nat, t: nat)
    requires n > 0
  {
    forall p: nat, q: nat :: p < n && q < n ==> Share(n, counter, p, t) <= Share(n, counter, q, t) + 1
  }

  // The counter wraps inside the batch, and the partitions served twice around the wrap are not
  // made up for by the ends of the batch.
  predicate LopsidedWrap(n: nat, counter: nat, t: nat)
    requires n > 0
  {
    counter + t > TWO_64 &&
    var wrap, first, last := TWO_64 % n, counter % n, (counter + t - TWO_64) % n;
    (first < wrap && first < last) || (0 < wrap < first && 0 < last < first)
  }

  /** Exactly when tickets in a row are spread with counts that differ by at most one. */
  lemma EvenUnlessLopsidedWrap(n: nat, counter: nat, t: nat)
    requires n > 0 && counter < TWO_64 && t <= TWO_64
    ensures EvenShares(n, counter, t) <==> !LopsidedWrap(n, counter, t)
  {
    hide Share;
    forall p: nat | p < n
      ensures counter + t <= TWO_64 ==> Share(n, counter, p, t) == Below(n, p, counter + t) - Below(n, p, counter)
      ensures counter + t >= TWO_64 ==>
                Share(n, counter, p, t)
                == Below(n, p, TWO_64) - Below(n, p, counter) + Below(n, p, counter + t - TWO_64)
    {
      ShareIs(n, counter, p, t);
    }
    if LopsidedWrap(n, counter, t) {
      var first := counter % n;
      if first < TWO_64 % n {
        assert Share(n, counter, first, t) == Share(n, counter, n - 1, t) + 2;
      } else {
        assert Share(n, counter, 0, t) == Share(n, counter, first - 1, t) + 2;
      }
    }
  }

  lemma {:induction false} SumOfZeros(bumps: seq<nat>, m: nat)
    requires m <= |bumps| && forall i :: 0 <= i < |bumps| ==> bumps[i] == 0
    ensures Sum(bumps, m) == 0
    decreases m
  {
    if m > 0 {
      SumOfZeros(bumps, m - 1);
    }
  }

  lemma KeylessRoute(hash: Bytes -> nat, n: nat, counter: nat, bumps: seq<nat>, records: seq<Record>, i: nat)
    requires n > 0 && i < |bumps| == |records| && records[i].key.None? && forall i :: 0 <= i < |bumps| ==> bumps[i] == 0
    ensures Routes(hash, n, counter, bumps, records)[i] == Pick(Wrapped(counter + Keyless(records, i)), n)
  {
    hide Wrapped, Pick, Keyless, Sum;
    SumOfZeros(bumps, i + 1);
  }

  lemma {:induction false} KeylessCountIsShare(hash: Bytes -> nat, n: nat, counter: nat, bumps: seq<nat>,
                                               records: seq<Record>, p: nat, m: nat)
    requires n > 0 && m <= |bumps| == |records| && forall i :: 0 <= i < |bumps| ==> bumps[i] == 0
    ensures KeylessCount(Routes(hash, n, counter, bumps, records), records, p, m)
         == Share(n, counter, p, Keyless(records, m))
    decreases m
  {
    hide Wrapped, Pick, Routes;
    if m > 0 {
      KeylessCountIsShare(hash, n, counter, bumps, records, p, m - 1);
      if records[m - 1].key.None? {
        KeylessRoute(hash, n, counter, bumps, records, m - 1);
      }
    }
  }

  /**
   With a single producer, the keyless records of a batch are spread over the partitions with
   counts that differ by at most one, except across a lopsided wrap of the counter.
   */
  lemma KeylessSpreadIsEvenIff(hash: Bytes -> nat, n: nat, counter: nat, bumps: seq<nat>, records: seq<Record>)
    requires n > 0 && counter < TWO_64 && Keyless(records, |records|) <= TWO_64
    requires |bumps| == |records| && forall i :: 0 <= i < |bumps| ==> bumps[i] == 0
    ensures var routes := Routes(hash, n, counter, bumps, records);
            (forall p: nat, q: nat :: p < n && q < n ==>
               KeylessCount(routes, records, p, |records|) <= KeylessCount(routes, records, q, |records|) + 1)
            <==> !LopsidedWrap(n, counter, Keyless(records, |records|))
  {
    hide Routes, KeylessCount, Share, Keyless, LopsidedWrap, Pick, Wrapped;
    var routes, t := Routes(hash, n, counter, bumps, records), Keyless(records, |records|);
    forall p: nat | p < n
      ensures KeylessCount(routes, records, p, |records|) == Share(n, counter, p, t)
    {
      KeylessCountIsShare(hash, n, counter, bumps, records, p, |records|);
    }
    EvenUnlessLopsidedWrap(n, counter, t);
    if !EvenShares(n, counter, t) {
      var p: nat, q: nat :| p < n && q < n && Share(n, counter, p, t) > Share(n, counter, q, t) + 1;
      assert KeylessCount(routes, records, p, |records|) > KeylessCount(routes, records, q, |records|) + 1;
    }
  }

  /** Two keyless records sent around the wrap, to three partitions: both go to partition 0. */
  lemma WrapSendsTwiceToOne(hash: Bytes -> nat, r: Record)
    requires r.key.None?
    ensures Routes(hash, 3, TWO_64 - 1, [0, 0], [r, r]) == [0, 0]
    ensures LopsidedWrap(3, TWO_64 - 1, 2)
  {
    assert Sum([0, 0], 1) == Sum([0, 0], 0) == 0;
    assert Sum([0, 0], 2) == 0;
    assert Keyless([r, r], 1) == 1;
  }

  // ---------------------------------------------------------------- the topic and its producers

  class Topic {
    const hash: Bytes -> nat
    const codec: Codec
    var roundRobin: nat
    var logs: seq<PlainLog>

    ghost predicate Valid()
      reads this
    {
      && |logs| > 0 && roundRobin < TWO_64
      && forall p :: 0 <= p < |logs| ==> logs[p].origin <= logs[p].first <= logs[p].Next()
    }

    constructor (hash: Bytes -> nat, codec: Codec, logs: seq<PlainLog>)
      requires |logs| > 0 && forall p :: 0 <= p < |logs| ==> logs[p].origin <= logs[p].first <= logs[p].Next()
      ensures Valid() && this.hash == hash && this.codec == codec && this.logs == logs && roundRobin == 0
    {
      this.hash, this.codec, this.logs, roundRobin := hash, codec, logs, 0;
    }

    method Route(key: Option<Bytes>) returns (p: nat)
      requires Valid()
      modifies this`roundRobin
      ensures Valid() && p == RouteOf(hash, |logs|, old(roundRobin), key)
      ensures roundRobin == if key.None? then Wrapped(old(roundRobin) + 1) else old(roundRobin)
    {
      match key {
        case Some(k) =>
          p := hash(k) % |logs|;
        case None =>
          p := Pick(roundRobin, |logs|);
          roundRobin := Wrapped(roundRobin + 1);
      }
    }

    method FillBuckets(records: seq<Record>, bumps: seq<nat>) returns (buckets: seq<seq<Slot>>)
      requires Valid() && |bumps| == |records|
      modifies this`roundRobin
      ensures Valid() && |buckets| == |logs|
      ensures var routes := Routes(hash, |logs|, old(roundRobin), bumps, records);
              forall p :: 0 <= p < |logs| ==> buckets[p] == Bucket(routes, records, p, |records|)
      ensures roundRobin == CounterAfter(old(roundRobin), bumps, records, |records|)
    {
      hide Pick, Wrapped, Ticket, CounterAfter, Routes;
      CounterStarts(roundRobin, bumps, records);
      var n := |logs|;
      ghost var routes := Routes(hash, n, roundRobin, bumps, records);
      buckets := seq(n, _ => []);
      for i := 0 to |records|
        invariant Valid() && |buckets| == n
        invariant roundRobin == CounterAfter(old(roundRobin), bumps, records, i)
        invariant forall p :: 0 <= p < n ==> buckets[p] == Bucket(routes, records, p, i)
      {
        CounterStep(old(roundRobin), bumps, records, i);
        RouteAt(hash, n, old(roundRobin), bumps, records, i);
        roundRobin := Wrapped(roundRobin + bumps[i]);
        var p := Route(records[i].key);
        buckets := buckets[p := buckets[p] + [Slot(i, records[i])]];
      }
    }

    /**
     Sends a batch: one append per partition that has records in it, in partition order, and the
     offsets scattered back to input order. Other producers' keyless sends (`bumps`), their
     commands ahead of ours (`arrivals`) and dead writers (`down`) are left open. The batch stops
     at the first partition that fails: partitions before it hold all their records of the batch,
     that one and those after it none.
     */
    method AppendBatchRouted(records: seq<Record>, bumps: seq<nat>, arrivals: seq<seq<Command>>, down: seq<bool>)
      returns (result: Result<seq<Position>>, ghost stop: nat)
      requires Valid() && |bumps| == |records| && |arrivals| == |down| == |logs|
      modifies this
      ensures Valid() && stop <= |logs| == |old(logs)|
      ensures var routes := Routes(hash, |logs|, old(roundRobin), bumps, records);
              var met := Met(codec, old(logs), arrivals);
              && WrittenUpTo(codec, down, routes, records, met, logs, stop)
              && (stop < |logs| ==>
                    Failure(codec, down[stop], Bucket(routes, records, stop, |records|)).Some?
                    && result == Err(Failure(codec, down[stop], Bucket(routes, records, stop, |records|)).value))
              && (stop == |logs| ==>
                    && result.Ok? && |result.value| == |records|
                    && forall i :: 0 <= i < |records| ==>
                         && result.value[i] == PositionOf(met, routes, i)
                         && logs[routes[i]].Read(result.value[i].offset) == Some(records[i]))
      ensures roundRobin == CounterAfter(old(roundRobin), bumps, records, |records|)
    {
      hide Bucket, Count, Exec, ExecAll, CounterAfter, Pick, Met, Routes, RecordsIn, WrittenUpTo;
      var n := |logs|;
      ghost var routes := Routes(hash, n, roundRobin, bumps, records);
      var buckets := FillBuckets(records, bumps);
      ghost var met := Met(codec, logs, arrivals);
      MetIsGood(codec, logs, arrivals);
      logs := Met(codec, logs, arrivals);
      var positions := seq(|records|, _ => Position(0, 0));
      NotYetWritten(codec, down, routes, records, met);
      stop := 0;
      for p := 0 to n
        invariant Valid() && |logs| == n && stop == p
        invariant roundRobin == CounterAfter(old(roundRobin), bumps, records, |records|)
        invariant WrittenUpTo(codec, down, routes, records, met, logs, p)
        invariant |positions| == |records|
        invariant forall i :: 0 <= i < |records| && routes[i] < p ==> positions[i] == PositionOf(met, routes, i)
      {
        ghost var before := logs;
        WrittenOthers(codec, down, routes, records, met, logs, p);
        ReceivedNothing(met[p]);
        if buckets[p] != [] {
          var offsets := AppendTo(p, down[p], buckets[p]);
          if offsets.Err? {
            return Err(offsets.error), p;
          }
          positions := Scatter(positions, p, buckets[p], offsets.value, routes, records);
        }
        stop := p + 1;
        BucketIsEmpty(routes, records, p);
        WrittenOneMore(codec, down, routes, records, met, before, logs, p);
      }
      result := Ok(positions);
      forall i | 0 <= i < |records|
        ensures logs[routes[i]].Read(positions[i].offset) == Some(records[i])
      {
        WrittenAt(codec, down, routes, records, met, logs, n, routes[i]);
        PositionHoldsTheRecord(met[routes[i]], routes, records, i);
      }
    }

    /** One partition's part of the batch, through its writer. */
    method AppendTo(p: nat, down: bool, bucket: seq<Slot>) returns (offsets: Result<seq<nat>>)
      requires p < |logs| && bucket != []
      modifies this`logs
      ensures var failure := Failure(codec, down, bucket);
              if failure.Some? then offsets == Err(failure.value) && logs == old(logs)
              else && offsets == Ok(Consecutive(old(logs)[p].Next(), |bucket|))
                   && logs == old(logs)[p := Received(old(logs)[p], bucket)]
    {
      if down {
        return Err(Closed);
      }
      var ran := Exec(codec, logs[p], AppendBatch(RecordsIn(bucket)));
      logs := logs[p := ran.log];
      offsets := ran.replies[0].offsets;
    }

    static method Scatter(positions: seq<Position>, p: nat, bucket: seq<Slot>, offsets: seq<nat>,
                          ghost routes: seq<nat>, ghost records: seq<Record>) returns (out: seq<Position>)
      requires |positions| == |routes| == |records| && bucket == Bucket(routes, records, p, |records|)
      requires |offsets| == |bucket|
      ensures |out| == |positions|
      ensures |bucket| == Count(routes, p, |routes|)
      ensures forall i :: 0 <= i < |out| ==>
                if routes[i] == p
                then Count(routes, p, i) < |offsets| && out[i] == Position(p, offsets[Count(routes, p, i)])
                else out[i] == positions[i]
    {
      hide Bucket, Count;
      out := positions;
      for k := 0 to |bucket|
        invariant |out| == |positions|
        invariant forall i :: 0 <= i < |out| ==>
                    if routes[i] == p && Count(routes, p, i) < k
                    then out[i] == Position(p, offsets[Count(routes, p, i)])
                    else out[i] == positions[i]
      {
        SlotIs(routes, records, p, |records|, k);
        ghost var was := out;
        out := out[bucket[k].index := Position(p, offsets[k])];
        forall i | 0 <= i < |out| && routes[i] == p && Count(routes, p, i) == k
          ensures i == bucket[k].index
        {
          SlotOf(routes, records, i);
        }
      }
      SlotIs(routes, records, p, |records|, 0);
      forall i | 0 <= i < |out| && routes[i] == p
        ensures Count(routes, p, i) < |bucket|
      {
        SlotOf(routes, records, i);
      }
    }
  }

  lemma ReceivedNothing(log: PlainLog)
    ensures Received(log, []) == log
  {
    assert log.history + RecordsIn([]) == log.history;
  }

  lemma BucketIsEmpty(routes: seq<nat>, records: seq<Record>, p: nat)
    requires |routes| == |records|
    ensures Bucket(routes, records, p, |records|) == [] ==> forall i :: 0 <= i < |routes| ==> routes[i] != p
  {
    hide Bucket, Count;
    forall i | 0 <= i < |routes| && routes[i] == p
      ensures Bucket(routes, records, p, |records|) != []
    {
      SlotOf(routes, records, i);
    }
  }

  /** What other producers append before the batch arrives is in the log it meets. */
  lemma MetHoldsArrivals(codec: Codec, logs: seq<PlainLog>, arrivals: seq<seq<Command>>, p: nat, records: seq<Record>)
    requires p < |logs| == |arrivals| && arrivals[p] == AppendRun(records) && codec.available
    ensures Met(codec, logs, arrivals)[p] == logs[p].(history := logs[p].history + records)
  {
    hide ExecAll, AppendRun;
    AppendRunIsOneBatch(codec, logs[p], records);
  }

  lemma MetIsGood(codec: Codec, logs: seq<PlainLog>, arrivals: seq<seq<Command>>)
    requires |logs| == |arrivals| && forall p :: 0 <= p < |logs| ==> logs[p].origin <= logs[p].first <= logs[p].Next()
    ensures forall p :: 0 <= p < |logs| ==>
              var met := Met(codec, logs, arrivals)[p];
              met.origin <= met.first <= met.Next() && met.origin == logs[p].origin && logs[p].history <= met.history
  {
    hide ExecAll;
    forall p | 0 <= p < |logs|
      ensures var met := Met(codec, logs, arrivals)[p];
              met.origin <= met.first <= met.Next() && met.origin == logs[p].origin && logs[p].history <= met.history
    {
      HistoryOnlyGrows(codec, logs[p], arrivals[p], 0);
      ExecNothing(codec, logs[p]);
      assert arrivals[p][..0] == [];
    }
  }
}
