/** A filter against replays: two pools of values, rotated once an interval has passed. */
module ReplayFilters {

  /** One check that has been made. */
  datatype Entry<T> = Entry(time: int, sum: T, accepted: bool)

  /** Check number `i` or a later one before `to` has accepted the value. */
  ghost predicate Accepted<T(!new)>(history: seq<Entry<T>>, from: nat, to: nat, sum: T)
    requires to <= |history|
  {
    exists i :: from <= i < to && history[i].accepted && history[i].sum == sum
  }

  /** The value has been accepted less than `interval` before `now`. */
  ghost predicate AcceptedWithin<T(!new)>(history: seq<Entry<T>>, sum: T, now: int, interval: int) {
    exists i :: 0 <= i < |history| && history[i].accepted && history[i].sum == sum && now < history[i].time + interval
  }

  ghost predicate IsPool<T(!new)>(pool: set<T>, history: seq<Entry<T>>, from: nat, to: nat)
    requires to <= |history|
  {
    forall x :: x in pool <==> Accepted(history, from, to, x)
  }

  lemma PoolLonger<T(!new)>(pool: set<T>, history: seq<Entry<T>>, from: nat, to: nat, e: Entry<T>)
    requires to <= |history| && IsPool(pool, history, from, to)
    ensures IsPool(pool, history + [e], from, to)
    ensures to == |history| && from <= to ==>
              IsPool(if e.accepted then pool + {e.sum} else pool, history + [e], from, to + 1)
  {
    var longer := history + [e];
    forall x
      ensures Accepted(history, from, to, x) <==> Accepted(longer, from, to, x)
      ensures to == |history| && from <= to ==>
                (Accepted(longer, from, to + 1, x) <==> Accepted(history, from, to, x) || (e.accepted && x == e.sum))
    {
      if Accepted(history, from, to, x) {
        var i :| from <= i < to && history[i].accepted && history[i].sum == x;
        assert longer[i] == history[i];
      }
      if to == |history| && from <= to && e.accepted && x == e.sum {
        assert longer[to] == e;
      }
    }
  }

  lemma EmptyPool<T(!new)>(history: seq<Entry<T>>)
    ensures IsPool({}, history, |history|, |history|)
  {
  }

  lemma TwoPools<T(!new)>(a: set<T>, b: set<T>, history: seq<Entry<T>>, fromB: nat, fromA: nat, sum: T)
    requires fromB <= fromA <= |history|
    requires IsPool(b, history, fromB, fromA) && IsPool(a, history, fromA, |history|)
    ensures Accepted(history, fromB, |history|, sum) <==> sum in a || sum in b
  {
    if Accepted(history, fromB, |history|, sum) {
      var i :| fromB <= i < |history| && history[i].accepted && history[i].sum == sum;
      assert if i < fromA then Accepted(history, fromB, fromA, sum) else Accepted(history, fromA, |history|, sum);
    }
  }

  /** What has been accepted within an interval is in one of the pools, and the pools hold nothing else. */
  lemma Remembered<T(!new)>(history: seq<Entry<T>>, fromB: nat, sum: T, now: int, interval: int)
    requires forall i :: 0 <= i < |history| && i < fromB ==> history[i].time + interval <= now
    ensures AcceptedWithin(history, sum, now, interval) ==> Accepted(history, fromB, |history|, sum)
    ensures Accepted(history, fromB, |history|, sum) ==> Accepted(history, 0, |history|, sum)
  {
  }

  class ReplayFilter<T(==,!new)> {
    var poolA: set<T>
    var poolB: set<T>
    const interval: int
    var lastClean: int
    /** All checks, and from which on they are in pool B and in pool A. */
    ghost var history: seq<Entry<T>>
    ghost var fromB: nat
    ghost var fromA: nat

    constructor (interval: int, now: int)
      ensures Valid() && history == [] && this.interval == interval && LastTime() == now
    {
      poolA, poolB, this.interval, lastClean := {}, {}, interval, now;
      history, fromB, fromA := [], 0, 0;
    }

    ghost function LastTime(): int
      reads this
    {
      if history == [] then lastClean else history[|history| - 1].time
    }

    /** The pools are the accepted values of the last two periods; older ones are older than an interval. */
    ghost predicate Valid()
      reads this
    {
      && fromB <= fromA <= |history| && lastClean <= LastTime()
      && IsPool(poolB, history, fromB, fromA) && IsPool(poolA, history, fromA, |history|)
      && (forall i, j :: 0 <= i < j < |history| ==> history[i].time <= history[j].time)
      && (forall i :: 0 <= i < fromB ==> history[i].time + interval <= lastClean)
      && (forall i :: 0 <= i < fromA ==> history[i].time <= lastClean)
      && (forall i :: fromA <= i < |history| ==> history[i].time >= lastClean)
    }

    /**
     * A value is turned away exactly if it has been accepted in this period or the one before. So it is turned away for
     * a whole interval after it has been accepted, and one that never has been is let through.
     */
    method Check(sum: T, now: int) returns (ok: bool)
      requires Valid() && now >= LastTime()
      modifies this
      ensures Valid() && history == old(history) + [Entry(now, sum, ok)]
      ensures ok <==> !Accepted(old(history), fromB, |old(history)|, sum)
      ensures fromB == if now - old(lastClean) >= interval then old(fromA) else old(fromB)
      ensures AcceptedWithin(old(history), sum, now, interval) ==> !ok
      ensures !Accepted(old(history), 0, |old(history)|, sum) ==> ok
    {
      hide IsPool, Accepted, AcceptedWithin;
      if now - lastClean >= interval {
        poolB := poolA;
        poolA := {};
        fromB, fromA := fromA, |history|;
        lastClean := now;
        EmptyPool(history);
      }
      TwoPools(poolA, poolB, history, fromB, fromA, sum);
      Remembered(history, fromB, sum, now, interval);
      var existsA, existsB := sum in poolA, sum in poolB;
      ok := !(existsA || existsB);
      ghost var e := Entry(now, sum, ok);
      PoolLonger(poolA, history, fromA, |history|, e);
      PoolLonger(poolB, history, fromB, fromA, e);
      if !existsA && !existsB {
        poolA := poolA + {sum};
      }
      history := history + [e];
    }
  }
}
