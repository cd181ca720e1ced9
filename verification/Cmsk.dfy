/** struct cmsk of pmu-refs/cmsk.cc: the sketch filters what enters the hash of hot addresses. */
module Cmsk {
  import opened Arith
  import opened CountMin
  import opened HotHash
  import opened Achash

  /** What the filter may miss of a count: the sketch's expected error, and the first sample of an
      address that enters the hash with a threshold of 0. */
  function Loss(threshold: nat, error: nat): nat {
    if threshold == 0 && error == 0 then 1 else error
  }

  /** An address seen c times, at least threshold + error of them, is in the hash with most of its
      samples. */
  predicate Kept(stored: Maybe, c: nat, threshold: nat, error: nat) {
    c >= 1 && c >= threshold + error ==> stored.Some? && stored.count + Loss(threshold, error) >= c
  }

  /** A sample of another address. */
  lemma KeptOther(stored: Maybe, c: nat, threshold: nat, error: nat, error': nat)
    requires Kept(stored, c, threshold, error) && error <= error'
    ensures Kept(stored, c, threshold, error')
  {
  }

  /** A sample of the address: it goes to the hash if the estimate allows. */
  lemma KeptSample(stored: Maybe, c: nat, threshold: nat, error: nat, error': nat, estimate: nat, stored': Maybe)
    requires Kept(stored, c, threshold, error) && error <= error' && estimate >= c + 1
    requires stored.Some? ==> stored.count >= threshold
    requires stored' == if estimate >= threshold + error'
                        then (if stored.Some? then Some(stored.count + 1) else Some(threshold))
                        else stored
    ensures Kept(stored', c + 1, threshold, error')
  {
  }

  lemma AtLeast(a: nat, b: nat, m: nat)
    requires m > 0 && a * m >= b * m
    ensures a >= b
  {
    if a < b {
      Distribute(b, a, m);
      MulAtLeast(b - a, m);
    }
  }

  lemma SumTimes(a: nat, b: nat, m: nat)
    ensures (a + b) * m == a * m + b * m
  {
  }

  lemma MulSign(a: nat, m: nat)
    ensures a * m >= 0
  {
  }

  class Cmsk {
    const halving: bool
    const cms: Cms
    const achash: Achash
    /** The samples of each address since the hash was last cleared. */
    ghost var seen: Key -> nat

    /** The bucket of an address is its hash in the last row; the sketch passes it on masked. */
    ghost predicate SameHash() {
      cms.depth >= 1 && cms.width > 0 && achash.size > 0 && forall k: Key :: achash.hb(k) == LastHash(k) % achash.size
    }

    function LastHash(k: Key): nat
      requires cms.depth >= 1 && cms.width > 0
    {
      if achash.hashMode then cms.hash(k, cms.depth - 1) else cms.Col(k, cms.depth - 1)
    }

    /** A stored count lies between the threshold and the estimate. */
    ghost predicate BelowEstimate(x: Key)
      requires cms.Shape()
      reads cms, cms.matrix, achash
    {
      Stored(achash.entries, x).Some? ==>
        && achash.threshold <= Stored(achash.entries, x).count
        && forall i: nat :: i < cms.depth ==> Stored(achash.entries, x).count <= cms.matrix[i, cms.Col(x, i)]
    }

    ghost predicate Filtered(x: Key)
      requires cms.Shape()
      reads this, cms, achash
    {
      seen(x) <= cms.aged(x) && Kept(Stored(achash.entries, x), seen(x), achash.threshold, cms.Error())
    }

    /** Without a sketch every address is counted exactly. */
    ghost predicate Counted(x: Key)
      reads this, cms, achash
    {
      Stored(achash.entries, x) == (if seen(x) == 0 then None else Some(seen(x))) && seen(x) <= cms.total
    }

    /** Without a sketch its cells stay zero. */
    ghost predicate Unused()
      requires cms.Shape()
      reads cms, cms.matrix
    {
      && (forall i: nat, w: nat :: i < cms.depth && w < cms.width ==> cms.matrix[i, w] == 0)
      && forall x: Key :: cms.aged(x) == 0
    }

    ghost predicate Valid()
      reads this, cms, cms.matrix, achash, achash.items, achash.buckets, achash.hist
    {
      && cms.Valid() && achash.Valid() && SameHash() && (achash.hashMode ==> Unused())
      && if achash.hashMode then forall x: Key :: Counted(x)
         else forall x: Key :: BelowEstimate(x) && Filtered(x)
    }

    /** cmsk_init. */
    constructor (halving: bool, depth: nat, widthOrder: nat, hash: (Key, nat) -> nat, hashMode: bool, threshold: nat,
                 sizeOrder: nat, histMax: nat)
      requires depth >= 1 && widthOrder >= 1 && Pow2(sizeOrder) <= SIZE_MAX && histMax > 0
      ensures Valid() && achash.entries == [] && cms.total == 0 && cms.Exact() && cms.counted == {}
      ensures this.halving == halving && achash.hashMode == hashMode && achash.size == Pow2(sizeOrder)
      ensures achash.threshold == threshold && achash.histMax == histMax
      ensures cms.depth == depth && cms.width == Pow2(widthOrder) && cms.hash == hash
      ensures fresh(cms) && fresh(cms.matrix) && fresh(achash)
      ensures fresh(achash.items) && fresh(achash.buckets) && fresh(achash.hist)
      ensures forall i :: 0 <= i < achash.size ==> achash.items[i].count == 0
    {
      this.halving := halving;
      var sketch := new Cms(depth, widthOrder, hash);
      var hb: Bucketing := (k: Key) => if hashMode then hash(k, depth - 1) % Pow2(sizeOrder)
                                       else sketch.Col(k, depth - 1) % Pow2(sizeOrder);
      cms := sketch;
      achash := new Achash(hashMode, threshold, Pow2(sizeOrder), histMax, hb);
      seen := x => 0;
      new;
      forall x: Key ensures Stored(achash.entries, x) == None {
        FindNone(achash.entries, x);
      }
    }

    lemma CountsBounded()
      requires Valid()
      ensures forall n :: 0 <= n < |achash.entries| ==> achash.entries[n].count <= cms.total
    {
      forall n | 0 <= n < |achash.entries| ensures achash.entries[n].count <= cms.total {
        var x := achash.entries[n].key;
        FindAt(achash.entries, x, n);
        if achash.hashMode {
          assert Counted(x);
        } else {
          assert BelowEstimate(x) && cms.CellOk(0, cms.Col(x, 0));
        }
      }
    }

    /** cmsk_update without a sketch. */
    method UpdateExact(k: Key) returns (full: bool)
      requires Valid() && achash.hashMode && cms.total < CMS_COUNT_MAX && achash.len < achash.size
      modifies this`seen, cms`total, achash`len, achash`samples, achash`entries, achash.items, achash.buckets, achash.hist
      ensures Valid() && full == (achash.len >= achash.size) && cms.total == old(cms.total) + 1
      ensures forall x :: seen(x) == old(seen)(x) + if x == k then 1 else 0
      ensures achash.items[..][achash.len..] == old(achash.items[..])[achash.len..]
      ensures achash.entries == Touched(old(achash.entries), k, 1)
    {
      CountsBounded();
      ghost var es, was := achash.entries, seen;
      var h := cms.hash(k, cms.depth - 1);
      cms.total := cms.total + 1;
      full := achash.Update(k, h);
      seen := x => if x == k then was(x) + 1 else was(x);
      forall x: Key ensures Counted(x) {
        assert old(Counted(x)) && old(Counted(k));
        StoredTouched(es, k, 1, x);
      }
      forall i: nat, w: nat | i < cms.depth && w < cms.width ensures cms.CellOk(i, w) {
        assert old(cms.CellOk(i, w));
      }
    }

    /** An address after a sample of k, by whether k went to the hash. */
    lemma SampleKeeps(x: Key, k: Key, was: Maybe, now: Maybe, c: nat, c': nat, error: nat, estimate: nat)
      requires error <= ErrorNow()
      requires c' == c + (if x == k then 1 else 0)
      requires x != k ==> now == was
      requires x == k ==> estimate >= c' && (was.Some? ==> was.count >= achash.threshold)
      requires x == k ==> now == if estimate >= achash.threshold + ErrorNow()
                                 then (if was.Some? then Some(was.count + 1) else Some(achash.threshold)) else was
      requires Kept(was, c, achash.threshold, error)
      ensures Kept(now, c', achash.threshold, ErrorNow())
    {
      if x == k {
        KeptSample(was, c, achash.threshold, error, ErrorNow(), estimate, now);
      } else {
        KeptOther(was, c, achash.threshold, error, ErrorNow());
      }
    }

    ghost function ErrorNow(): nat
      reads cms
    {
      if cms.errorUnit > 0 then cms.Error() else 0
    }

    /** What an update makes of the entries: an address enters, or counts up, exactly when its estimate has
        reached the threshold and the expected error, both taken with this sample. */
    ghost function Admitted(es: seq<Entry>, k: Key): seq<Entry>
      requires cms.Shape()
      reads cms, cms.matrix, achash
    {
      if achash.hashMode then Touched(es, k, 1)
      else if cms.Estimate(k) >= achash.threshold + cms.Error() then Touched(es, k, achash.threshold)
      else es
    }

    /** What held of x before a sample of k, said of the sketch after it: `was` are its samples and `es`
        the entries until then. */
    ghost predicate Before(x: Key, k: Key, es: seq<Entry>, was: nat, error: nat)
      requires cms.Shape()
      reads this, cms, cms.matrix
    {
      && seen(x) == was + (if x == k then 1 else 0) <= cms.aged(x)
      && Kept(Stored(es, x), was, achash.threshold, error) && RoomFor(x, k, Stored(es, x))
    }

    /** The stored count was at least the threshold, and has not reached the cells if k is x. */
    ghost predicate RoomFor(x: Key, k: Key, stored: Maybe)
      requires cms.Shape()
      reads cms, cms.matrix
    {
      stored.Some? ==>
        && achash.threshold <= stored.count
        && forall i: nat :: i < cms.depth ==> stored.count + (if x == k then 1 else 0) <= cms.matrix[i, cms.Col(x, i)]
    }

    lemma StaysKept(x: Key, k: Key, es: seq<Entry>, was: nat, error: nat)
      requires cms.Valid() && !achash.hashMode && Unique(es) && achash.entries == Admitted(es, k)
      requires Before(x, k, es, was, error) && error <= cms.Error()
      ensures BelowEstimate(x) && Filtered(x)
    {
      StoredTouched(es, k, achash.threshold, x);
      cms.EstimateCovers(k);
      SampleKeeps(x, k, Stored(es, x), Stored(achash.entries, x), was, seen(x), error, cms.Estimate(k));
    }

    /** The second half of cmsk_update through the sketch. */
    method Admit(k: Key, count: nat, h: nat) returns (full: bool)
      requires cms.Valid() && achash.Valid() && SameHash() && !achash.hashMode && achash.len < achash.size
      requires count == cms.Estimate(k) && h == cms.Col(k, cms.depth - 1)
      requires forall n :: 0 <= n < |achash.entries| ==> achash.entries[n].count < COUNT_MAX
      modifies achash`len, achash`samples, achash`entries, achash.items, achash.buckets, achash.hist
      ensures achash.Valid() && full == (achash.len >= achash.size)
      ensures achash.items[..][achash.len..] == old(achash.items[..])[achash.len..]
      ensures achash.entries == Admitted(old(achash.entries), k)
    {
      full := false;
      if count >= achash.threshold + cms.Error() {
        full := achash.Update(k, h);
      }
    }

    /** cmsk_update through the sketch. */
    method UpdateSketch(k: Key) returns (full: bool)
      requires Valid() && !achash.hashMode && cms.total < CMS_COUNT_MAX && achash.len < achash.size
      modifies this`seen, cms`total, cms`aged, cms`counted, cms.matrix
      modifies achash`len, achash`samples, achash`entries, achash.items, achash.buckets, achash.hist
      ensures Valid() && (achash.len >= achash.size ==> full) && cms.total == old(cms.total) + 1
      ensures full ==> achash.len >= achash.size
      ensures forall x :: seen(x) == old(seen)(x) + if x == k then 1 else 0
      ensures achash.items[..][achash.len..] == old(achash.items[..])[achash.len..]
      ensures achash.entries == Admitted(old(achash.entries), k)
      ensures cms.counted == old(cms.counted) + {k} && (old(cms.Exact()) ==> cms.Exact())
    {
      CountsBounded();
      ghost var es := achash.entries;
      var count, h;
      ghost var was, error;
      count, h, was, error := Sample(k);
      full := Admit(k, count, h);
      forall x: Key ensures BelowEstimate(x) && Filtered(x) {
        StaysKept(x, k, es, was(x), error);
      }
    }

    method CountInSketch(k: Key) returns (count: nat, h: nat, ghost error: nat)
      requires Valid() && !achash.hashMode && cms.total < CMS_COUNT_MAX
      modifies cms`total, cms`aged, cms`counted, cms.matrix
      ensures cms.Valid() && cms.total == old(cms.total) + 1
      ensures count == cms.Estimate(k) && h == cms.Col(k, cms.depth - 1) && error == old(cms.Error()) <= cms.Error()
      ensures forall x :: cms.aged(x) == old(cms.aged)(x) + if x == k then 1 else 0
      ensures forall x: Key :: RoomFor(x, k, Stored(achash.entries, x))
      ensures cms.counted == old(cms.counted) + {k} && (old(cms.Exact()) ==> cms.Exact())
    {
      error := cms.Error();
      count, h := cms.Update(k);
      ShareGrows(old(cms.total), cms.total, cms.errorUnit);
      forall x: Key ensures RoomFor(x, k, Stored(achash.entries, x)) {
        assert old(BelowEstimate(x));
      }
    }

    /** The first half: the sketch counts the sample. */
    method Sample(k: Key) returns (count: nat, h: nat, ghost was: Key -> nat, ghost error: nat)
      requires Valid() && !achash.hashMode && cms.total < CMS_COUNT_MAX
      modifies this`seen, cms`total, cms`aged, cms`counted, cms.matrix
      ensures cms.Valid() && cms.total == old(cms.total) + 1 && was == old(seen)
      ensures count == cms.Estimate(k) && h == cms.Col(k, cms.depth - 1) && error <= cms.Error()
      ensures forall x :: seen(x) == was(x) + if x == k then 1 else 0
      ensures forall x: Key :: Before(x, k, achash.entries, was(x), error)
      ensures cms.counted == old(cms.counted) + {k} && (old(cms.Exact()) ==> cms.Exact())
    {
      was := seen;
      count, h, error := CountInSketch(k);
      seen := x => if x == k then was(x) + 1 else was(x);
      forall x: Key ensures Before(x, k, achash.entries, was(x), error) {
        assert old(Filtered(x));
      }
    }

    /** cmsk_update, called while the hash has room: true when its last item was taken. */
    method Update(k: Key) returns (full: bool)
      requires Valid() && cms.total < CMS_COUNT_MAX && achash.len < achash.size
      modifies this`seen, cms`total, cms`aged, cms`counted, cms.matrix
      modifies achash`len, achash`samples, achash`entries, achash.items, achash.buckets, achash.hist
      ensures Valid() && full == (achash.len >= achash.size) && cms.total == old(cms.total) + 1
      ensures forall x :: seen(x) == old(seen)(x) + if x == k then 1 else 0
      ensures achash.items[..][achash.len..] == old(achash.items[..])[achash.len..]
      ensures achash.entries == Admitted(old(achash.entries), k)
      ensures old(cms.Exact()) ==> cms.Exact()
    {
      if achash.hashMode {
        full := UpdateExact(k);
      } else {
        full := UpdateSketch(k);
      }
    }

    /** cmsk_clear. */
    method Clear()
      requires Valid()
      modifies this, cms, cms.matrix, achash, achash.buckets, achash.hist
      ensures Valid() && achash.entries == [] && cms.total == 0 && forall x :: seen(x) == 0
      ensures old(cms.Exact()) ==> cms.Exact()
    {
      if !achash.hashMode {
        cms.Clear();
      } else {
        cms.total := 0;
        assert forall i: nat, w: nat :: i < cms.depth && w < cms.width ==> cms.CellOk(i, w);
      }
      achash.Clear();
      seen := x => 0;
    }

    /** cmsk_age. */
    method Age()
      requires Valid()
      modifies this, cms, cms.matrix, achash, achash.buckets, achash.hist
      ensures Valid() && achash.entries == [] && (forall x :: seen(x) == 0)
      ensures cms.total == if halving then old(cms.total) / 2 else 0
      ensures halving ==> forall x :: cms.aged(x) == old(cms.aged)(x) / 2
      ensures old(cms.Exact()) ==> cms.Exact()
    {
      if halving {
        cms.Age();
        achash.Clear();
        seen := x => 0;
      } else {
        Clear();
      }
    }

    // ----- What the filter promises -----

    /** Since the last ageing, by halving or by clearing: an address sampled c times, at least threshold
        plus the expected error of them, is in the hash. Its stored count misses at most that error, or
        one sample where threshold and error are both 0, and is never above the estimate, which is never
        below c. */
    lemma Sandwich(k: Key)
      requires Valid() && !achash.hashMode
      ensures seen(k) <= cms.Estimate(k)
      ensures seen(k) >= 1 && seen(k) >= achash.threshold + cms.Error() ==> Stored(achash.entries, k).Some?
      ensures seen(k) >= 1 && seen(k) >= achash.threshold + cms.Error() ==>
                seen(k) - Loss(achash.threshold, cms.Error()) <= Stored(achash.entries, k).count
      ensures Stored(achash.entries, k).Some? ==>
                achash.threshold <= Stored(achash.entries, k).count <= cms.Estimate(k)
    {
      assert BelowEstimate(k) && Filtered(k);
      cms.EstimateCovers(k);
      var i: nat :| i < cms.depth && cms.Estimate(k) == cms.matrix[i, cms.Col(k, i)];
    }

    /** Said without the expected error: an address is in the hash whose samples exceed the threshold by
        twice the average of a column, and of its count the hash misses at most that much. */
    lemma HeavyIsStored(k: Key)
      requires Valid() && !achash.hashMode
      requires seen(k) >= 1 && seen(k) * cms.width >= achash.threshold * cms.width + 2 * cms.total
      ensures var stored := Stored(achash.entries, k);
              && stored.Some?
              && ((seen(k) - stored.count) * cms.width <= 2 * cms.total
                  || (achash.threshold == 0 && 2 * cms.total < cms.width && seen(k) - stored.count <= 1))
    {
      cms.ErrorBracket();
      SumTimes(achash.threshold, cms.Error(), cms.width);
      AtLeast(seen(k), achash.threshold + cms.Error(), cms.width);
      Sandwich(k);
      var missed := seen(k) - Stored(achash.entries, k).count;
      if missed <= cms.Error() {
        Distribute(cms.Error(), missed, cms.width);
        MulSign(cms.Error() - missed, cms.width);
      }
    }

    /** Of an address that shares its column with no other sampled one in some row the sketch knows the
        count: it goes to the hash exactly when that has reached the threshold and the expected error, and
        its stored count never exceeds it. */
    lemma AloneAdmitted(es: seq<Entry>, k: Key, i: nat)
      requires Valid() && !achash.hashMode && cms.Exact() && i < cms.depth
      requires forall x :: x in cms.counted && x != k ==> cms.hash(x, i) % cms.width != cms.hash(k, i) % cms.width
      ensures Admitted(es, k)
              == if cms.aged(k) >= achash.threshold + cms.Error() then Touched(es, k, achash.threshold) else es
      ensures Stored(achash.entries, k).Some? ==> Stored(achash.entries, k).count <= cms.aged(k)
    {
      cms.AloneIsExact(k, i);
      Sandwich(k);
    }

    /** In hash mode the hash counts every address exactly. */
    lemma ExactCounts(k: Key)
      requires Valid() && achash.hashMode
      ensures Stored(achash.entries, k) == if seen(k) == 0 then None else Some(seen(k))
    {
      assert Counted(k);
    }
  }
}
