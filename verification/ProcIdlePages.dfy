/** The user-space walker of ProcIdlePages.cc: it reads /proc/idle_pages over a mapping and counts the
    pages the stream lists. */
module ProcIdlePages {
  import opened Arith
  import opened IdleStream
  import opened EptEncoder
  import opened IdleRefs
  import opened EptLayout
  import opened EptIdle
  import opened EptRounds
  import opened EptOverrun
  import opened EptRead
  import opened EptReads
  import opened IdleWalk
  import opened MappingWalk
  import PT = PageTable

  const USER_BUF_MIN := 20

  class Walker {
    /** The calls of inc_payload so far. */
    var refs: seq<Ref>
    /** What the last read has stored, from the start of the buffer on. */
    var readBuf: seq<byte>
    /** Set where a read writes behind the buffer; from then on the model says nothing about the code. */
    var overrun: bool
    var nextVa: nat
    var vaStart: nat
    var vaEnd: nat
    var minReadSize: nat

    /** inc_page_refs. */
    method IncPageRefs(t: PageType, nr: nat, va: int, end: int)
      requires va < end
      modifies this`refs
      ensures refs == old(refs) + IncRefs(t, nr, va, end)
    {
      if !Aligned(va, t) {
        return;
      }
      var v, i := va, 0;
      while i < nr
        invariant 0 <= i <= nr && v == va + PageSize(t) * i && v < end
        invariant refs == old(refs) + RunRefs(t, i, va, end)
      {
        RunSnoc(t, i, va, end, v);
        Associative(old(refs), RunRefs(t, i, va, end), [Ref(PageIndex(t), v, Weight(t))]);
        refs := refs + [Ref(PageIndex(t), v, Weight(t))];
        v := v + PageSize(t);
        if v >= end {
          RunBeyond(t, i + 1, nr, va, end);
          break;
        }
        i := i + 1;
      }
    }

    /** u8_to_u64. */
    static method U8ToU64(a: seq<byte>, at: nat) returns (n: nat)
      requires at + 8 <= |a|
      ensures n == FromBytes(a[at..at + 8])
    {
      n := Shifted(a[at], 0x100_0000_0000_0000) + Shifted(a[at + 1], 0x1_0000_0000_0000)
        + Shifted(a[at + 2], 0x100_0000_0000) + Shifted(a[at + 3], 0x1_0000_0000)
        + Shifted(a[at + 4], 0x100_0000) + Shifted(a[at + 5], 0x1_0000) + Shifted(a[at + 6], 0x100) + a[at + 7];
      HighByteFirst(a[at..at + 8]);
    }

    method CountItem(t: PageType, nr: nat, va: int, end: int)
      requires va < end
      modifies this`refs
      ensures refs == old(refs) + ItemRefs(t, nr, va, end)
    {
      if t == PMD_IDLE_PTES {
        IncPageRefs(PTE_IDLE, nr * 512, va, end);
      } else if t < PMD_IDLE_PTES {
        IncPageRefs(t, nr, va, end);
      }
    }

    /** parse_idlepages, for a buffer that holds whole commands and known types. */
    method ParseIdlepages(bytes: nat, va0: int, end: int, ghost ks: seq<Token>) returns (va: int)
      requires bytes <= |readBuf| && Lex(readBuf[..bytes]) == Some(ks)
      modifies this`refs
      ensures refs == old(refs) + Parse(ks, va0, end).refs && va == Parse(ks, va0, end).va
    {
      va := va0;
      var i := 0;
      ghost var rest, done: seq<Ref> := ks, [];
      assert readBuf[0..bytes] == readBuf[..bytes];
      while i < bytes
        invariant i <= bytes && Lex(readBuf[i..bytes]) == Some(rest)
        invariant refs == old(refs) + done && Parse(ks, va0, end) == Before(done, Parse(rest, va, end))
      {
        LexAt(readBuf, i, bytes, rest);
        ParseHead(rest, va, end);
        var b := readBuf[i];
        if b == PIP_CMD_SET_HVA {
          i := i + 1;
          va := U8ToU64(readBuf, i);
          i := i + 8;
        } else {
          var t: PageType, nr: nat := PipType(b), PipSize(b);
          if va >= end {
            return;
          }
          ghost var item := ItemRefs(t, nr, va, end);
          CountItem(t, nr, va, end);
          var next := va + PageSize(t) * nr;
          ParseHeadRun(rest, va, end, t, nr, next, item);
          va := next;
          ParseStep(old(refs), done, item, Parse(rest[1..], va, end));
          done := done + item;
          i := i + 1;
        }
        rest := rest[1..];
      }
      assert readBuf[i..bytes] == [];
    }

    /** The bytes asked for to read what is left of [va, end). */
    method ReadSize(va: nat, end: nat) returns (size: nat)
      requires va < end && USER_BUF_MIN <= minReadSize <= READ_BUF_SIZE
      ensures SizeFor(size, end - va, minReadSize)
    {
      size := (end - va + 7 * PAGE_SIZE) / (8 * PAGE_SIZE);
      if size < minReadSize {
        size := minReadSize;
      }
      if size > READ_BUF_SIZE {
        size := READ_BUF_SIZE;
      }
    }

    /** The system call. */
    method ReadFile(eic: EptIdleCtrl, slots: seq<Slot>, root: seq<PT.Node>, va: nat, size: nat)
      returns (rc: nat, ghost r: PastRead)
      requires HostOk(slots, root) && eic.Valid() && va < TASK_SIZE && va % PAGE_SIZE == 0
      requires USER_BUF_MIN <= size <= READ_BUF_SIZE
      modifies eic, eic.kpie
      ensures eic.Valid() && rc == |eic.userBuf| && (size <= READ_BUF_SIZE - KBUF_SIZE ==> rc <= READ_BUF_SIZE)
      ensures ReadOk(HostVm(slots, root), r) && Lex(eic.userBuf) == Some(r.last.sent)
      ensures r.pos == va && r.count == size && r.accessed == old(eic.accessed) && eic.accessed == r.last.w.accessed
      ensures SlotsFit(slots) ==> eic.overrun == old(eic.overrun)
    {
      ReadRange(va, size);
      ghost var scans;
      var pos;
      rc, pos, scans := EptIdleRead(eic, slots, root, va, size);
      r := PastReadOk(HostVm(slots, root), va, size, old(eic.accessed), old(eic.overrun), scans);
    }

    /** One read in the loop of walk_vma. */
    method ReadInto(eic: EptIdleCtrl, slots: seq<Slot>, root: seq<PT.Node>, va: nat, size: nat)
      returns (rc: nat, ghost r: PastRead)
      requires HostOk(slots, root) && eic.Valid() && va < TASK_SIZE && va % PAGE_SIZE == 0
      requires USER_BUF_MIN <= size <= READ_BUF_SIZE
      modifies this`readBuf, this`overrun, eic, eic.kpie
      ensures eic.Valid() && rc == |readBuf| && ReadOk(HostVm(slots, root), r) && Lex(readBuf) == Some(r.last.sent)
      ensures r.pos == va && r.count == size && r.accessed == old(eic.accessed) && eic.accessed == r.last.w.accessed
      ensures SlotsFit(slots) ==> eic.overrun == old(eic.overrun)
      ensures size <= READ_BUF_SIZE - KBUF_SIZE ==> overrun == old(overrun)
    {
      rc, r := ReadFile(eic, slots, root, va, size);
      readBuf := eic.userBuf;
      if rc > READ_BUF_SIZE {
        overrun := true;
      }
    }

    /** The parsing of what a read has stored. */
    method ParseReport(rc: nat, end: nat, ghost vm: Vm, ghost r: PastRead, va: nat) returns (va': nat)
      requires HostVmOk(vm) && ReadOk(vm, r) && r.pos == va < end
      requires rc == |readBuf| && Lex(readBuf) == Some(r.last.sent)
      modifies this`refs
      ensures refs == old(refs) + Counted(r.Pages(), end) && va' == Parse(r.last.sent, va, end).va
      ensures Moved(va, va', r.last.w.ctrl.nextHva, end)
    {
      assert readBuf[..rc] == readBuf;
      ghost var p := ReadCounted(vm, r, end);
      va' := ParseIdlepages(rc, va, end, r.last.sent);
    }

    /** One read and its parsing in the loop of walk_vma. */
    method ReadAndParse(eic: EptIdleCtrl, slots: seq<Slot>, root: seq<PT.Node>, va: nat, end: nat)
      returns (va': nat, ghost r: PastRead)
      requires HostOk(slots, root) && eic.Valid() && va < end <= TASK_SIZE && va % PAGE_SIZE == 0
      requires USER_BUF_MIN <= minReadSize <= READ_BUF_SIZE
      modifies this`refs, this`readBuf, this`overrun, eic, eic.kpie
      ensures eic.Valid() && ReadOk(HostVm(slots, root), r) && r.pos == va && SizeFor(r.count, end - va, minReadSize)
      ensures r.accessed == old(eic.accessed) && eic.accessed == r.last.w.accessed
      ensures refs == old(refs) + Counted(r.Pages(), end) && va' == Parse(r.last.sent, va, end).va
      ensures Moved(va, va', r.last.w.ctrl.nextHva, end)
      ensures SlotsFit(slots) ==> eic.overrun == old(eic.overrun)
      ensures end - va <= SAFE_RANGE && minReadSize <= READ_BUF_SIZE - KBUF_SIZE ==> overrun == old(overrun)
    {
      var size := ReadSize(va, end);
      var rc;
      rc, r := ReadInto(eic, slots, root, va, size);
      va' := ParseReport(rc, end, HostVm(slots, root), r, va);
    }

    /** The body of the loop of walk_vma. */
    method ReadNext(eic: EptIdleCtrl, slots: seq<Slot>, root: seq<PT.Node>, va: nat, end: nat, ghost a: nat,
                    ghost rs: seq<PastRead>, ghost before: set<nat>)
      returns (va': nat, ghost rs': seq<PastRead>)
      requires HostOk(slots, root) && eic.Valid() && va < end <= TASK_SIZE && USER_BUF_MIN <= minReadSize <= READ_BUF_SIZE
      requires Underway(HostVm(slots, root), rs, a, end, va, minReadSize, before, eic.accessed)
      modifies this`refs, this`readBuf, this`overrun, eic, eic.kpie
      ensures eic.Valid() && va < va'
      ensures Underway(HostVm(slots, root), rs', a, end, va', minReadSize, before, eic.accessed)
      ensures |rs'| == |rs| + 1 && ListOf(rs') == ListOf(rs) + rs'[|rs|].Pages()
      ensures refs == old(refs) + Counted(rs'[|rs|].Pages(), end)
      ensures SlotsFit(slots) ==> eic.overrun == old(eic.overrun)
      ensures end - va <= SAFE_RANGE && minReadSize <= READ_BUF_SIZE - KBUF_SIZE ==> overrun == old(overrun)
    {
      ghost var r;
      ghost var after := eic.accessed;
      va', r := ReadAndParse(eic, slots, root, va, end);
      rs' := NextUnderway(HostVm(slots, root), rs, r, a, end, va, va', minReadSize, before, after);
    }

    /** The loop of walk_vma. */
    method WalkRange(eic: EptIdleCtrl, slots: seq<Slot>, root: seq<PT.Node>, a: nat, end: nat)
      returns (va: nat, ghost rs: seq<PastRead>)
      requires HostOk(slots, root) && eic.Valid() && end <= TASK_SIZE && a % PAGE_SIZE == 0
      requires USER_BUF_MIN <= minReadSize <= READ_BUF_SIZE
      modifies this`refs, this`readBuf, this`overrun, eic, eic.kpie
      ensures eic.Valid()
      ensures Done(HostVm(slots, root), rs, a, end, va, minReadSize, old(eic.accessed), eic.accessed)
      ensures refs == old(refs) + Counted(ListOf(rs), end)
      ensures SlotsFit(slots) ==> eic.overrun == old(eic.overrun)
      ensures end - a <= SAFE_RANGE && minReadSize <= READ_BUF_SIZE - KBUF_SIZE ==> overrun == old(overrun)
    {
      va, rs := a, [];
      ghost var vm, before := HostVm(slots, root), eic.accessed;
      while va < end
        invariant eic.Valid() && a <= va
        invariant Underway(vm, rs, a, end, va, minReadSize, before, eic.accessed)
        invariant refs == old(refs) + Counted(ListOf(rs), end)
        invariant SlotsFit(slots) ==> eic.overrun == old(eic.overrun)
        invariant end - a <= SAFE_RANGE && minReadSize <= READ_BUF_SIZE - KBUF_SIZE ==> overrun == old(overrun)
        decreases end - va
      {
        ghost var past := ListOf(rs);
        va, rs := ReadNext(eic, slots, root, va, end, a, rs, before);
        CountedAppend(past, rs[|rs| - 1].Pages(), end);
        Associative(old(refs), Counted(past, end), Counted(rs[|rs| - 1].Pages(), end));
      }
    }

    /** walk_vma. A mapping that is not anonymous or lies outside the range of interest is skipped,
        one behind the range stops the walk. Else `rs` are the reads made from the first address not
        yet walked on to the mapping's end or beyond, and the pages they list are counted. */
    method WalkVma(eic: EptIdleCtrl, slots: seq<Slot>, root: seq<PT.Node>, m: Mapping)
      returns (rc: int, ghost rs: seq<PastRead>)
      requires HostOk(slots, root) && eic.Valid() && vaEnd <= TASK_SIZE
      requires m.start % PAGE_SIZE == 0 && nextVa % PAGE_SIZE == 0 && vaStart % PAGE_SIZE == 0
      requires USER_BUF_MIN <= minReadSize <= READ_BUF_SIZE
      modifies this`refs, this`readBuf, this`overrun, this`nextVa, eic, eic.kpie
      ensures eic.Valid() && nextVa % PAGE_SIZE == 0
      ensures rc == if BehindRange(m, vaStart, vaEnd, old(nextVa)) then 1 else 0
      ensures !Walks(m, vaStart, vaEnd, old(nextVa)) ==>
                refs == old(refs) && nextVa == old(nextVa) && eic.accessed == old(eic.accessed)
      ensures Walks(m, vaStart, vaEnd, old(nextVa)) ==>
                && Done(HostVm(slots, root), rs, From(m, vaStart, old(nextVa)), Min(m.end, vaEnd), nextVa, minReadSize,
                        old(eic.accessed), eic.accessed)
                && refs == old(refs) + Counted(ListOf(rs), Min(m.end, vaEnd))
      ensures SlotsFit(slots) ==> eic.overrun == old(eic.overrun)
      ensures m.end - m.start <= SAFE_RANGE && minReadSize <= READ_BUF_SIZE - KBUF_SIZE ==> overrun == old(overrun)
    {
      rs, rc := [], 0;
      var va, end := m.start, m.end;
      if end <= nextVa || end <= vaStart {
        return;
      }
      if va >= vaEnd {
        rc := 1;
        return;
      }
      if !m.anonymous {
        return;
      }
      if va < nextVa {
        va := nextVa;
      }
      if va < vaStart {
        va := vaStart;
      }
      if end > vaEnd {
        end := vaEnd;
      }
      va, rs := WalkRange(eic, slots, root, va, end);
      nextVa := va;
    }

    /** walk_vma with its record: the walks so far and, if the mapping is walked, its own. */
    method WalkNext(eic: EptIdleCtrl, slots: seq<Slot>, root: seq<PT.Node>, m: Mapping, ghost ws: seq<MapWalk>)
      returns (rc: int, ghost ws': seq<MapWalk>)
      requires HostOk(slots, root) && eic.Valid() && vaEnd <= TASK_SIZE && nextVa == NextVa(ws)
      requires m.start % PAGE_SIZE == 0 && nextVa % PAGE_SIZE == 0 && vaStart % PAGE_SIZE == 0
      requires USER_BUF_MIN <= minReadSize <= READ_BUF_SIZE
      modifies this`refs, this`readBuf, this`overrun, this`nextVa, eic, eic.kpie
      ensures eic.Valid() && nextVa % PAGE_SIZE == 0 && nextVa == NextVa(ws')
      ensures rc == if BehindRange(m, vaStart, vaEnd, old(nextVa)) then 1 else 0
      ensures if Walks(m, vaStart, vaEnd, old(nextVa))
              then |ws'| == |ws| + 1 && ws'[..|ws|] == ws && ws'[|ws|].before == old(eic.accessed)
                   && ws'[|ws|].after == eic.accessed && refs == old(refs) + CallsIn(ws'[|ws|])
                   && WalkOf(HostVm(slots, root), ws'[|ws|], m, vaStart, vaEnd, minReadSize, old(nextVa))
              else ws' == ws && refs == old(refs) && eic.accessed == old(eic.accessed)
      ensures SlotsFit(slots) ==> eic.overrun == old(eic.overrun)
    {
      ghost var rs;
      rc, rs := WalkVma(eic, slots, root, m);
      ws' := ws;
      if Walks(m, vaStart, vaEnd, old(nextVa)) {
        ghost var w := MapWalk(From(m, vaStart, old(nextVa)), Min(m.end, vaEnd), rs, nextVa, old(eic.accessed), eic.accessed);
        ws' := ws + [w];
      }
    }

    /** The loop of walk over the mappings of the process: `n` are visited, all of them unless one lies
        behind the range of interest, and `ws` are the walks made. */
    method Walk(eic: EptIdleCtrl, slots: seq<Slot>, root: seq<PT.Node>, maps: seq<Mapping>)
      returns (rc: int, ghost ws: seq<MapWalk>, ghost n: nat)
      requires HostOk(slots, root) && eic.Valid() && vaEnd <= TASK_SIZE && vaStart % PAGE_SIZE == 0
      requires forall i :: 0 <= i < |maps| ==> maps[i].start % PAGE_SIZE == 0
      requires USER_BUF_MIN <= minReadSize <= READ_BUF_SIZE
      modifies this`refs, this`readBuf, this`overrun, this`nextVa, eic, eic.kpie
      ensures eic.Valid() && n <= |maps|
      ensures if maps == [] then rc == -ESRCH
              else if n < |maps| then rc == 1 && BehindRange(maps[n], vaStart, vaEnd, nextVa)
              else rc == 0
      ensures WalksOver(HostVm(slots, root), maps[..n], vaStart, vaEnd, minReadSize, ws, old(eic.accessed))
      ensures eic.accessed == BitsNow(ws, old(eic.accessed)) && refs == old(refs) + CallsOf(ws)
      ensures maps != [] ==> nextVa == NextVa(ws)
      ensures SlotsFit(slots) ==> eic.overrun == old(eic.overrun)
    {
      ws, n := [], 0;
      if maps == [] {
        return -ESRCH, ws, n;
      }
      rc := 0;
      nextVa := 0;
      ghost var vm, bits := HostVm(slots, root), eic.accessed;
      for i := 0 to |maps|
        invariant eic.Valid() && nextVa == NextVa(ws) && nextVa % PAGE_SIZE == 0 && rc == 0
        invariant WalksOver(vm, maps[..i], vaStart, vaEnd, minReadSize, ws, bits)
        invariant eic.accessed == BitsNow(ws, bits) && refs == old(refs) + CallsOf(ws)
        invariant SlotsFit(slots) ==> eic.overrun == old(eic.overrun)
      {
        ghost var past, was := ws, CallsOf(ws);
        rc, ws := WalkNext(eic, slots, root, maps[i], past);
        n := i;
        if rc != 0 {
          return;
        }
        NextOver(vm, maps, i, vaStart, vaEnd, minReadSize, past, ws, bits);
        if ws != past {
          CallsIs(ws, past, ws[|past|]);
          Associative(old(refs), was, CallsIn(ws[|past|]));
        }
      }
      n := |maps|;
      assert maps[..n] == maps;
    }
  }

  const ESRCH := 3

  lemma NextOver(vm: Vm, maps: seq<Mapping>, i: nat, lo: nat, hi: nat, least: nat, past: seq<MapWalk>, ws: seq<MapWalk>,
                 bits: set<nat>)
    requires i < |maps| && WalksOver(vm, maps[..i], lo, hi, least, past, bits)
    requires !BehindRange(maps[i], lo, hi, NextVa(past))
    requires if Walks(maps[i], lo, hi, NextVa(past))
             then |ws| == |past| + 1 && ws[..|past|] == past && ws[|past|].before == BitsNow(past, bits)
                  && WalkOf(vm, ws[|past|], maps[i], lo, hi, least, NextVa(past))
             else ws == past
    ensures WalksOver(vm, maps[..i + 1], lo, hi, least, ws, bits)
  {
    var front := maps[..i + 1];
    assert front[..i] == maps[..i];
  }

  /** A range so short that no read of it asks for the last KBUF_SIZE bytes of the buffer. */
  const SAFE_RANGE := (READ_BUF_SIZE - KBUF_SIZE) * 8 * PAGE_SIZE - 7 * PAGE_SIZE

  lemma RunSnoc(t: PageType, i: nat, va: int, end: int, v: int)
    requires v == va + PageSize(t) * i && v < end
    ensures RunRefs(t, i + 1, va, end) == RunRefs(t, i, va, end) + [Ref(PageIndex(t), v, Weight(t))]
    ensures v + PageSize(t) == va + PageSize(t) * (i + 1)
  {
    Distribute(i, -1, PageSize(t));
  }

  lemma ReadRange(va: nat, size: nat)
    requires va < TASK_SIZE && size <= READ_BUF_SIZE && size > 0
    ensures va < (va + size * 8 * PAGE_SIZE) % U64_RANGE
  {
    DivModUnique(va + size * 8 * PAGE_SIZE, U64_RANGE, 0, va + size * 8 * PAGE_SIZE);
  }

  lemma ParseStep(was: seq<Ref>, a: seq<Ref>, b: seq<Ref>, p: Parsed)
    ensures Before(a, Before(b, p)) == Before(a + b, p) && (was + a) + b == was + (a + b)
  {
    Associative(a, b, p.refs);
  }

  lemma ParseHead(ks: seq<Token>, va: int, end: int)
    requires ks != []
    ensures ks[0].SetHva? ==> Parse(ks, va, end) == Parse(ks[1..], ks[0].hva, end)
    ensures ks[0].Run? && va >= end ==> Parse(ks, va, end) == Parsed([], va)
  {
  }

  lemma ParseHeadRun(ks: seq<Token>, va: int, end: int, t: PageType, nr: Nibble, va': int, item: seq<Ref>)
    requires ks != [] && ks[0] == Run(t, nr) && va < end
    requires va' == va + PageSize(t) * nr && item == ItemRefs(t, nr, va, end)
    ensures Parse(ks, va, end) == Before(item, Parse(ks[1..], va', end))
  {
  }

  function Shifted(b: nat, place: nat): nat { b * place }

  /** The first token of a stream. */
  lemma LexAt(buf: seq<byte>, i: nat, bytes: nat, ks: seq<Token>)
    requires i < bytes <= |buf| && Lex(buf[i..bytes]) == Some(ks)
    ensures ks != []
    ensures buf[i] == PIP_CMD_SET_HVA ==>
              i + 9 <= bytes && ks[0] == SetHva(FromBytes(buf[i + 1..i + 9])) && Lex(buf[i + 9..bytes]) == Some(ks[1..])
    ensures buf[i] != PIP_CMD_SET_HVA ==>
              PipType(buf[i]) <= PIP_CMD && ks[0] == Run(PipType(buf[i]), PipSize(buf[i]))
              && Lex(buf[i + 1..bytes]) == Some(ks[1..])
  {
    var s := buf[i..bytes];
    Slice(buf, i, bytes, 1, |s|);
    if s[0] == PIP_CMD_SET_HVA {
      Slice(buf, i, bytes, 1, 9);
      Slice(buf, i, bytes, 9, |s|);
    }
  }

  lemma Slice<T>(s: seq<T>, i: nat, j: nat, a: nat, b: nat)
    requires i <= j <= |s| && a <= b <= j - i
    ensures s[i..j][a..b] == s[i + a..i + b]
  {
    var t := s[i..j];
    forall k | 0 <= k < b - a ensures t[a..b][k] == s[i + a..i + b][k] {
    }
  }

  // ----- Which pages are counted -----

  /** The pages of a size are counted at all if and only if their slot is mapped at a host address that
      equals its guest address modulo the size. */
  lemma SlotCountsExactly(s: Slot, base: nat, size: nat)
    requires size > 0 && base % size == 0
    ensures s.Hva(base) % size == 0 <==> (s.hva - s.gpa) % size == 0
  {
    if s.Hva(base) % size == 0 {
      ModSub(base, s.Hva(base), size);
    }
    if (s.hva - s.gpa) % size == 0 {
      ModAdd(base, s.hva - s.gpa, size);
    }
  }
}
