/** The sampling loops of pmu-refs/pmu.cc and the interval of pmu-refs/hmd.cc: samples go to the
    filter until its hash is full. What the buffers deliver is a parameter. */
module Sampling {
  import opened Arith
  import opened CountMin
  import opened Cmsk

  const U32_RANGE := 0x1_0000_0000

  /** What perf_buffer_read returns: nothing, a record of another type, or a sample with its
      address as s64 and the word that holds its pid and thread id. */
  datatype Record = Unreadable | Other | Sample(sizeOk: bool, val: int, pidTid: nat)

  type Fd = seq<Record>

  type Cpu = seq<Fd>

  /** One unit of an interval: what the buffers hold after each select, and at its end. */
  datatype SamplingUnit = SamplingUnit(rounds: seq<seq<Cpu>>, rest: seq<Cpu>)

  predicate Usable(r: Record) {
    r.Sample? && r.sizeOk && r.val > 0 && r.pidTid % U32_RANGE != 0
  }

  function KeyOf(r: Record, order: nat): Key
    requires Usable(r)
  {
    Key(r.val / Pow2(order), r.pidTid % U32_RANGE)
  }

  /** Two samples count for the same item exactly if they are of one process and their addresses
      lie in the same aligned block of 2^order bytes. */
  lemma SameKeyExactly(a: Record, b: Record, order: nat)
    requires Usable(a) && Usable(b)
    ensures KeyOf(a, order) == KeyOf(b, order) <==>
            a.pidTid % U32_RANGE == b.pidTid % U32_RANGE && exists block: nat :: InBlock(a.val, b.val, block, order)
  {
    if a.val / Pow2(order) == b.val / Pow2(order) {
      BlockOf(a.val, order, a.val / Pow2(order));
      BlockOf(b.val, order, a.val / Pow2(order));
      assert InBlock(a.val, b.val, a.val / Pow2(order), order);
    }
    if block: nat :| InBlock(a.val, b.val, block, order) {
      BlockOf(a.val, order, block);
      BlockOf(b.val, order, block);
    }
  }

  lemma BlockOf(val: nat, order: nat, block: nat)
    ensures Within(val, order, block) <==> val / Pow2(order) == block
  {
    var size := Pow2(order);
    if Within(val, order, block) {
      DivModUnique(val, size, block, val - block * size);
    }
  }

  predicate Within(val: int, order: nat, block: nat) {
    block * Pow2(order) <= val < (block + 1) * Pow2(order)
  }

  predicate InBlock(a: int, b: int, block: nat, order: nat) {
    Within(a, order, block) && Within(b, order, block)
  }

  // ----- The samples in order -----

  function Flatten<T>(f: T -> seq<Key>, xs: seq<T>): seq<Key> {
    if xs == [] then [] else f(xs[0]) + Flatten(f, xs[1..])
  }

  function OfRecord(order: nat): Record -> seq<Key> {
    (r: Record) => if Usable(r) then [KeyOf(r, order)] else []
  }

  function OfFd(order: nat): Fd -> seq<Key> {
    (fd: Fd) => Flatten(OfRecord(order), fd)
  }

  function OfCpu(order: nat): Cpu -> seq<Key> {
    (fds: Cpu) => Flatten(OfFd(order), fds)
  }

  function OfRound(order: nat): seq<Cpu> -> seq<Key> {
    (cpus: seq<Cpu>) => Flatten(OfCpu(order), cpus)
  }

  function OfUnit(order: nat): SamplingUnit -> seq<Key> {
    (u: SamplingUnit) => Flatten(OfRound(order), u.rounds) + OfRound(order)(u.rest)
  }

  lemma {:induction false} FlattenAppend<T>(f: T -> seq<Key>, xs: seq<T>, ys: seq<T>)
    ensures Flatten(f, xs + ys) == Flatten(f, xs) + Flatten(f, ys)
  {
    if xs == [] {
      assert xs + ys == ys;
    } else {
      assert (xs + ys)[1..] == xs[1..] + ys;
      FlattenAppend(f, xs[1..], ys);
    }
  }

  lemma FlattenOne<T>(f: T -> seq<Key>, x: T)
    ensures Flatten(f, [x]) == f(x)
  {
    assert [x][1..] == [];
  }

  lemma FlattenSnoc<T>(f: T -> seq<Key>, xs: seq<T>, x: T)
    ensures Flatten(f, xs + [x]) == Flatten(f, xs) + f(x)
  {
    FlattenAppend(f, xs, [x]);
    FlattenOne(f, x);
  }

  lemma FlattenParts<T>(f: T -> seq<Key>, xs: seq<T>, a: seq<T>, x: T, b: seq<T>, c: seq<T>)
    requires b == a + [x] && xs == b + c
    ensures Flatten(f, b) == Flatten(f, a) + f(x)
    ensures Flatten(f, xs) == Flatten(f, b) + Flatten(f, c)
  {
    FlattenSnoc(f, a, x);
    FlattenAppend(f, b, c);
  }

  lemma FlattenStep<T>(f: T -> seq<Key>, xs: seq<T>, i: nat)
    requires i < |xs|
    ensures Flatten(f, xs[..i + 1]) == Flatten(f, xs[..i]) + f(xs[i])
    ensures Flatten(f, xs) == Flatten(f, xs[..i + 1]) + Flatten(f, xs[i + 1..])
  {
    Slices(xs, i);
    FlattenParts(f, xs, xs[..i], xs[i], xs[..i + 1], xs[i + 1..]);
  }

  lemma Slices<T>(xs: seq<T>, i: nat)
    requires i < |xs|
    ensures xs[..i + 1] == xs[..i] + [xs[i]] && xs == xs[..i + 1] + xs[i + 1..]
  {
  }

  /** From `was` the filter has been fed `due`, or a first part of it that filled the hash. */
  predicate Fed(was: seq<Key>, now: seq<Key>, due: seq<Key>, full: bool) {
    was <= now && now <= was + due && (!full ==> now == was + due)
  }

  lemma FedMore(was: seq<Key>, mid: seq<Key>, now: seq<Key>, a: seq<Key>, b: seq<Key>, full: bool)
    requires Fed(was, mid, a, false) && Fed(mid, now, b, full)
    ensures Fed(was, now, a + b, full)
  {
    assert was + (a + b) == (was + a) + b;
  }

  lemma FedFull(was: seq<Key>, now: seq<Key>, a: seq<Key>, b: seq<Key>)
    requires Fed(was, now, a, true)
    ensures Fed(was, now, a + b, true)
  {
    assert was + (a + b) == (was + a) + b;
  }

  /** One round of a sampling loop. */
  lemma FedStep<T>(f: T -> seq<Key>, xs: seq<T>, i: nat, was: seq<Key>, mid: seq<Key>, now: seq<Key>, full: bool)
    requires i < |xs| && Fed(was, mid, Flatten(f, xs[..i]), false) && Fed(mid, now, f(xs[i]), full)
    ensures Fed(was, now, if full then Flatten(f, xs) else Flatten(f, xs[..i + 1]), full)
  {
    FlattenStep(f, xs, i);
    FedMore(was, mid, now, Flatten(f, xs[..i]), f(xs[i]), full);
    if full {
      FedFull(was, now, Flatten(f, xs[..i + 1]), Flatten(f, xs[i + 1..]));
    }
  }

  class Sampler {
    const cmsk: Cmsk
    /** hmd_config.granularity_order. */
    const order: nat
    /** The samples fed to the filter since its hash was last cleared. */
    ghost var fed: seq<Key>

    constructor (order: nat, cmsk: Cmsk)
      requires cmsk.Valid() && forall x :: cmsk.seen(x) == 0
      ensures Valid() && this.order == order && this.cmsk == cmsk && fed == []
    {
      this.order, this.cmsk := order, cmsk;
      fed := [];
    }

    ghost predicate Valid()
      reads this, cmsk, cmsk.cms, cmsk.cms.matrix, cmsk.achash, cmsk.achash.items, cmsk.achash.buckets, cmsk.achash.hist
    {
      cmsk.Valid() && forall x :: cmsk.seen(x) == multiset(fed)[x]
    }

    ghost predicate Full()
      reads cmsk.achash
    {
      cmsk.achash.len >= cmsk.achash.size
    }

    /** The 16-bit cells have room for the samples due. */
    ghost predicate Room(due: seq<Key>)
      reads cmsk.cms
    {
      cmsk.cms.total + |due| <= CMS_COUNT_MAX
    }

    /** Every sample fed is counted by the sketch. */
    twostate predicate Grown()
      reads this, cmsk.cms
    {
      cmsk.cms.total == old(cmsk.cms.total) + |fed| - |old(fed)|
    }

    /** on_pmu_pmem_sample. */
    method Feed(k: Key) returns (full: bool)
      requires Valid() && !Full() && Room([k])
      modifies this`fed, cmsk, cmsk.cms, cmsk.cms.matrix
      modifies cmsk.achash, cmsk.achash.items, cmsk.achash.buckets, cmsk.achash.hist
      ensures Valid() && full == Full() && fed == old(fed) + [k] && Grown()
    {
      full := cmsk.Update(k);
      fed := fed + [k];
    }

    /** read_pmem_samples_fd. */
    method ReadFd(fd: Fd) returns (full: bool)
      requires Valid() && !Full() && Room(OfFd(order)(fd))
      modifies this`fed, cmsk, cmsk.cms, cmsk.cms.matrix
      modifies cmsk.achash, cmsk.achash.items, cmsk.achash.buckets, cmsk.achash.hist
      ensures Valid() && full == Full() && Fed(old(fed), fed, OfFd(order)(fd), full) && Grown()
    {
      ghost var was := fed;
      full := false;
      for i := 0 to |fd|
        invariant Valid() && !Full() && Fed(was, fed, Flatten(OfRecord(order), fd[..i]), false) && Grown()
      {
        ghost var mid := fed;
        FlattenStep(OfRecord(order), fd, i);
        if Usable(fd[i]) {
          full := Feed(KeyOf(fd[i], order));
        }
        FedStep(OfRecord(order), fd, i, was, mid, fed, full);
        if full {
          return;
        }
      }
      assert fd[..|fd|] == fd;
    }

    /** read_pmem_samples of one CPU. */
    method ReadCpu(fds: Cpu) returns (full: bool)
      requires Valid() && !Full() && Room(OfCpu(order)(fds))
      modifies this`fed, cmsk, cmsk.cms, cmsk.cms.matrix
      modifies cmsk.achash, cmsk.achash.items, cmsk.achash.buckets, cmsk.achash.hist
      ensures Valid() && full == Full() && Fed(old(fed), fed, OfCpu(order)(fds), full) && Grown()
    {
      ghost var was := fed;
      full := false;
      for i := 0 to |fds|
        invariant Valid() && !Full() && Fed(was, fed, Flatten(OfFd(order), fds[..i]), false) && Grown()
      {
        ghost var mid := fed;
        FlattenStep(OfFd(order), fds, i);
        full := ReadFd(fds[i]);
        FedStep(OfFd(order), fds, i, was, mid, fed, full);
        if full {
          return;
        }
      }
      assert fds[..|fds|] == fds;
    }

    /** The loop over the CPUs after one select. */
    method ReadRound(cpus: seq<Cpu>) returns (full: bool)
      requires Valid() && !Full() && Room(OfRound(order)(cpus))
      modifies this`fed, cmsk, cmsk.cms, cmsk.cms.matrix
      modifies cmsk.achash, cmsk.achash.items, cmsk.achash.buckets, cmsk.achash.hist
      ensures Valid() && full == Full() && Fed(old(fed), fed, OfRound(order)(cpus), full) && Grown()
    {
      ghost var was := fed;
      full := false;
      for i := 0 to |cpus|
        invariant Valid() && !Full() && Fed(was, fed, Flatten(OfCpu(order), cpus[..i]), false) && Grown()
      {
        ghost var mid := fed;
        FlattenStep(OfCpu(order), cpus, i);
        full := ReadCpu(cpus[i]);
        FedStep(OfCpu(order), cpus, i, was, mid, fed, full);
        if full {
          return;
        }
      }
      assert cpus[..|cpus|] == cpus;
    }

    method ReadRounds(rounds: seq<seq<Cpu>>) returns (full: bool)
      requires Valid() && !Full() && Room(Flatten(OfRound(order), rounds))
      modifies this`fed, cmsk, cmsk.cms, cmsk.cms.matrix
      modifies cmsk.achash, cmsk.achash.items, cmsk.achash.buckets, cmsk.achash.hist
      ensures Valid() && full == Full() && Fed(old(fed), fed, Flatten(OfRound(order), rounds), full) && Grown()
    {
      ghost var was := fed;
      full := false;
      for i := 0 to |rounds|
        invariant Valid() && !Full() && Fed(was, fed, Flatten(OfRound(order), rounds[..i]), false) && Grown()
      {
        ghost var mid := fed;
        FlattenStep(OfRound(order), rounds, i);
        full := ReadRound(rounds[i]);
        FedStep(OfRound(order), rounds, i, was, mid, fed, full);
        if full {
          return;
        }
      }
      assert rounds[..|rounds|] == rounds;
    }

    /** PmuState::read_pmem_samples: a full hash skips to the end of the unit, where nothing more is
        read; otherwise what is left in the buffers is. */
    method ReadUnit(u: SamplingUnit) returns (full: bool)
      requires Valid() && !Full() && Room(OfUnit(order)(u))
      modifies this`fed, cmsk, cmsk.cms, cmsk.cms.matrix
      modifies cmsk.achash, cmsk.achash.items, cmsk.achash.buckets, cmsk.achash.hist
      ensures Valid() && full == Full() && Fed(old(fed), fed, OfUnit(order)(u), full) && Grown()
    {
      ghost var was := fed;
      full := ReadRounds(u.rounds);
      ghost var mid := fed;
      if full {
        FedFull(was, fed, Flatten(OfRound(order), u.rounds), OfRound(order)(u.rest));
      } else {
        full := ReadRound(u.rest);
        FedMore(was, mid, fed, Flatten(OfRound(order), u.rounds), OfRound(order)(u.rest), full);
      }
    }

    /** The sampling part of hmd's interval loop: the filter is aged, and units are sampled until the
        hash is full or the units end. The hash has never more items than places, and what the
        filter has seen is the samples delivered, in order, up to the one that filled the hash. */
    method RunInterval(units: seq<SamplingUnit>) returns (full: bool)
      requires Valid() && cmsk.achash.size > 0
      requires (if cmsk.halving then cmsk.cms.total / 2 else 0) + |Flatten(OfUnit(order), units)| <= CMS_COUNT_MAX
      modifies this`fed, cmsk, cmsk.cms, cmsk.cms.matrix
      modifies cmsk.achash, cmsk.achash.items, cmsk.achash.buckets, cmsk.achash.hist
      ensures Valid() && full == Full() && cmsk.achash.len <= cmsk.achash.size
      ensures Fed([], fed, Flatten(OfUnit(order), units), full)
    {
      cmsk.Age();
      fed := [];
      full := false;
      ghost var total := cmsk.cms.total;
      for i := 0 to |units|
        invariant Valid() && !Full() && Fed([], fed, Flatten(OfUnit(order), units[..i]), false)
        invariant cmsk.cms.total == total + |fed|
      {
        ghost var mid := fed;
        FlattenStep(OfUnit(order), units, i);
        full := ReadUnit(units[i]);
        FedStep(OfUnit(order), units, i, [], mid, fed, full);
        if full {
          return;
        }
      }
      assert units[..|units|] == units;
    }
  }
}
