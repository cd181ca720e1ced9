/** The scanner's control block of kernel_module/ept_idle.c: the byte buffer, the range walkers and
    one read of /proc/idle_pages. */
module EptIdle {
  import opened Arith
  import opened IdleStream
  import opened EptEncoder
  import opened EptWalk
  import PT = PageTable

  class EptIdleCtrl {
    const kpie: array<byte>
    var pieRead: nat
    var pieReadMax: int
    var nextHva: int
    var gpaToHva: int
    var restartGpa: int
    var bufSize: nat
    var bytesCopied: nat
    /** What copy_to_user has stored. */
    var userBuf: seq<byte>
    /** The accessed bits of the guest's page table. */
    var accessed: set<nat>
    /** Set where the code writes behind kpie; from then on the model says nothing about the code. */
    var overrun: bool
    ghost var tokens: seq<Token>

    ghost predicate Valid()
      reads this, kpie
    {
      && kpie.Length == KBUF_SIZE && pieRead == Size(tokens) <= KBUF_SIZE
      && kpie[..pieRead] == Serialize(tokens)
      && pieReadMax + 9 <= KBUF_SIZE
    }

    ghost function C(): Ctrl
      reads this
    {
      Ctrl(tokens, pieReadMax, nextHva, gpaToHva, restartGpa, overrun)
    }

    ghost function W(): Walk
      reads this
    {
      Walk(C(), accessed)
    }

    constructor (count: nat)
      ensures Valid() && fresh(kpie) && tokens == [] && userBuf == [] && bytesCopied == 0
      ensures bufSize == count && nextHva == 0 && !overrun
    {
      kpie := new byte[KBUF_SIZE](i => 0);
      pieRead, pieReadMax, tokens := 0, 0, [];
      nextHva, gpaToHva, restartGpa := 0, 0, 0;
      bufSize, bytesCopied, userBuf, accessed, overrun := count, 0, [], {}, false;
    }

    /** u64_to_u8: the low eight bytes of a word, the highest first. */
    method U64ToU8(word: nat, at: nat)
      requires at + 8 <= kpie.Length && word < U64_RANGE
      modifies kpie
      ensures kpie[..at] == old(kpie[..at]) && kpie[at..at + 8] == ToBytes(word, 8)
    {
      var n, k := word, 8;
      while k > 0
        invariant k <= 8
        invariant kpie[..at] == old(kpie[..at])
        invariant ToBytes(word, 8) == ToBytes(n, k) + kpie[at + k..at + 8]
      {
        k := k - 1;
        kpie[at + k] := n % 256;
        assert kpie[at + k..at + 8] == [(n % 256) as byte] + kpie[at + k + 1..at + 8];
        n := n / 256;
      }
    }

    /** eic_report_addr. */
    method ReportAddr(addr: int)
      requires Valid() && pieRead + 9 <= KBUF_SIZE
      modifies this`pieRead, this`tokens, kpie
      ensures Valid() && C() == old(C()).(tokens := old(tokens) + [SetHva(addr)])
    {
      SerializeSnoc(tokens, SetHva(addr));
      SizeSnoc(tokens, SetHva(addr));
      ghost var was := kpie[..pieRead];
      kpie[pieRead] := PIP_CMD_SET_HVA;
      assert kpie[..pieRead + 1] == was + [PIP_CMD_SET_HVA];
      U64ToU8(addr % U64_RANGE, pieRead + 1);
      CommandBytes(kpie[..], pieRead, was, addr);
      pieRead := pieRead + 1 + 8;
      tokens := tokens + [SetHva(addr)];
    }

    /** Does the buffer end with an item of type t that can still grow? */
    method LastGrows(t: PageType) returns (b: bool)
      requires Valid() && tokens != [] && tokens[|tokens| - 1].Run?
      ensures b <==> tokens[|tokens| - 1].t == t && tokens[|tokens| - 1].nr < 15
    {
      LastByte(tokens);
      b := PipType(kpie[pieRead - 1]) == t && PipSize(kpie[pieRead - 1]) < 15;
    }

    /** set_restart_gpa. */
    method SetRestartGpa(val: int)
      requires Valid()
      modifies this`restartGpa
      ensures Valid() && C() == old(C()).(restartGpa := val)
    {
      restartGpa := val;
    }

    /** A refused entry, because the buffer is full or, `behind`, because kpie is. */
    method Refuse(addr: int, behind: bool)
      requires Valid()
      modifies this`restartGpa, this`overrun
      ensures Valid() && C() == old(C()).(restartGpa := addr, overrun := old(overrun) || behind)
    {
      restartGpa := addr;
      overrun := overrun || behind;
    }

    /** The "IN-PLACE INC" case of eic_add_page. */
    method GrowLast(n: int)
      requires Valid() && tokens != [] && tokens[|tokens| - 1].Run? && tokens[|tokens| - 1].nr < 15
      modifies this`tokens, this`nextHva, this`restartGpa, kpie
      ensures Valid()
      ensures C() == old(C()).(tokens := Grown(old(tokens)), nextHva := n + gpaToHva, restartGpa := n)
    {
      nextHva := n + gpaToHva;
      restartGpa := n;
      GrownByte(tokens);
      kpie[pieRead - 1] := kpie[pieRead - 1] + 1;
      tokens := Grown(tokens);
      assert kpie[..pieRead] == kpie[..pieRead - 1] + [kpie[pieRead - 1]];
    }

    /** The "NEW-ITEM" tail of eic_add_page. */
    method PutItem(n: int, t: ItemType)
      requires Valid() && pieRead < KBUF_SIZE
      modifies this`pieRead, this`nextHva, this`restartGpa, this`tokens, kpie
      ensures Valid()
      ensures C() == old(C()).(tokens := old(tokens) + [Run(t, 1)], nextHva := n + gpaToHva, restartGpa := n)
    {
      SerializeSnoc(tokens, Run(t, 1));
      SizeSnoc(tokens, Run(t, 1));
      nextHva := n + gpaToHva;
      restartGpa := n;
      kpie[pieRead] := PipCompose(t, 1);
      assert kpie[..pieRead + 1] == kpie[..pieRead] + [PipCompose(t, 1)];
      pieRead := pieRead + 1;
      tokens := tokens + [Run(t, 1)];
    }

    /** A command and an item behind it. */
    method PutJump(hva: int, n: int, t: ItemType)
      requires Valid() && pieRead + 10 <= KBUF_SIZE
      modifies this`pieRead, this`nextHva, this`restartGpa, this`tokens, kpie
      ensures Valid()
      ensures C() == old(C()).(tokens := old(tokens) + [SetHva(hva)] + [Run(t, 1)], nextHva := n + gpaToHva,
                               restartGpa := n)
    {
      SizeSnoc(tokens, SetHva(hva));
      ReportAddr(hva);
      PutItem(n, t);
    }

    /** eic_add_page for an entry that does not continue at the cursor. */
    method AddJump(addr: int, next: int, t: ItemType) returns (full: bool)
      requires Valid() && Jumps(C(), addr)
      modifies this`pieRead, this`nextHva, this`restartGpa, this`tokens, this`overrun, kpie
      ensures Valid()
      ensures Added(C(), full) == EptEncoder.AddPage(old(C()), addr, next, t)
    {
      full := false;
      var n := RoundUp(next, t);
      ghost var r := JumpAdded(C(), addr, next, t, n);
      if IsHole(t) {
        SetRestartGpa(n);
      } else if pieRead + 8 + 2 >= AsSize(pieReadMax) {
        Refuse(addr, false);
        full := true;
      } else if pieRead + 1 + 8 + 1 > KBUF_SIZE {
        Refuse(addr, true);
        full := true;
      } else {
        PutJump(RoundDown(addr, t) + gpaToHva, n, t);
      }
    }

    /** eic_add_page for an entry that continues at the cursor. */
    method AddNext(addr: int, next: int, t: ItemType) returns (full: bool)
      requires Valid() && Opened(tokens) && !Jumps(C(), addr)
      modifies this`pieRead, this`nextHva, this`restartGpa, this`tokens, this`overrun, kpie
      ensures Valid()
      ensures Added(C(), full) == EptEncoder.AddPage(old(C()), addr, next, t)
    {
      full := false;
      NextAdded(C(), addr, next, t);
      var n := RoundUp(next, t);
      var grows := LastGrows(t);
      if grows {
        GrowLast(n);
      } else if pieRead >= pieReadMax {
        Refuse(addr, false);
        full := true;
      } else {
        PutItem(n, t);
      }
    }

    /** eic_add_page. */
    method AddPage(addr: int, next: int, t: ItemType) returns (full: bool)
      requires Valid() && Opened(tokens)
      modifies this`pieRead, this`nextHva, this`restartGpa, this`tokens, this`overrun, kpie
      ensures Valid()
      ensures Added(C(), full) == EptEncoder.AddPage(old(C()), addr, next, t) && Opened(tokens)
    {
      EmptyBuffer(tokens);
      PushedOpened(C(), addr, t);
      if pieRead == 0 || addr + gpaToHva != nextHva {
        full := AddJump(addr, next, t);
      } else {
        full := AddNext(addr, next, t);
      }
    }

    /** One entry of the three lowest levels: find its type, clearing its accessed bit, and add it. */
    method VisitEntry(b: PT.Block, addr: nat, next: nat) returns (full: bool)
      requires Valid() && Opened(tokens) && Reportable(b)
      modifies this`pieRead, this`nextHva, this`restartGpa, this`tokens, this`accessed, this`overrun, kpie
      ensures Valid() && Opened(tokens)
      ensures Walked(W(), full) == Visit(old(W()), b, addr, next)
    {
      var base := PT.BlockStart(b.level, addr);
      var wasAccessed := false;
      if b.isPage && b.level <= 1 {
        wasAccessed := base in accessed;
        accessed := accessed - {base};
      }
      full := AddPage(addr, next, EntryType(b, wasAccessed));
    }

    /** ept_pte_range. */
    method EptPteRange(kids: seq<PT.Node>, start: nat, end: nat) returns (full: bool)
      requires Valid() && Opened(tokens) && PT.WellFormed(0, kids)
      requires start < end <= PT.BlockEnd(1, start) && start % PAGE_SIZE == 0 && end % PAGE_SIZE == 0
      modifies this`pieRead, this`nextHva, this`restartGpa, this`tokens, this`accessed, this`overrun, kpie
      ensures Valid() && Opened(tokens)
      ensures Walked(W(), full) == Flat(PT.ViewOf(0, kids), old(W()), start, end)
    {
      ghost var v, w := PT.ViewOf(0, kids), W();
      var addr, i := start, PT.Index(0, start);
      full := false;
      while true
        invariant Valid() && Opened(tokens) && !full
        invariant start <= addr < end && addr % PAGE_SIZE == 0 && i == PT.Index(0, addr)
        invariant PT.BlockEnd(1, addr) == PT.BlockEnd(1, start)
        invariant Flat(v, w, start, end) == Flat(v, W(), addr, end)
        decreases end - addr
      {
        ghost var w1 := W();
        var next := addr + PAGE_SIZE;
        NextPte(addr, next, end);
        PteEntry(kids, w1, addr, next);
        full := VisitEntry(PT.Block(0, kids[i].Page?), addr, next);
        FlatStep(v, 0, w1, Walked(W(), full), addr, next, end);
        if full || next == end {
          return;
        }
        PT.NextIndex(0, addr, next, end);
        addr, i := next, i + 1;
      }
    }

    /** ept_page_range, ept_p4d_range, ept_pud_range and ept_pmd_range: levels 4 to 1. */
    method EptRange(level: nat, kids: seq<PT.Node>, start: nat, end: nat) returns (full: bool)
      requires Valid() && Opened(tokens) && 1 <= level && PT.WellFormed(level, kids)
      requires start < end <= PT.BlockEnd(level + 1, start) && start % PAGE_SIZE == 0 && end % PAGE_SIZE == 0
      modifies this`pieRead, this`nextHva, this`restartGpa, this`tokens, this`accessed, this`overrun, kpie
      ensures Valid() && Opened(tokens)
      ensures Walked(W(), full) == Flat(PT.ViewOf(level, kids), old(W()), start, end)
      decreases level, 1
    {
      ghost var v, w := PT.ViewOf(level, kids), W();
      var addr, i := start, PT.Index(level, start);
      full := false;
      while true
        invariant Valid() && Opened(tokens) && !full
        invariant start <= addr < end && addr % PAGE_SIZE == 0 && i == PT.Index(level, addr)
        invariant PT.BlockEnd(level + 1, addr) == PT.BlockEnd(level + 1, start)
        invariant Flat(v, w, start, end) == Flat(v, W(), addr, end)
        decreases end - addr
      {
        ghost var w1 := W();
        var next := PT.AddrEnd(level, addr, end);
        PT.NextAligned(level, addr, end);
        assert PT.BlockSize(0) == PAGE_SIZE;
        full := EptEntry(level, kids, i, addr, next);
        FlatStep(v, level, w1, Walked(W(), full), addr, next, end);
        if full || next == end {
          return;
        }
        PT.NextIndex(level, addr, next, end);
        addr, i := next, i + 1;
      }
    }

    /** The body of the walkers' loops for the entry kids[i] that holds addr. */
    method EptEntry(level: nat, kids: seq<PT.Node>, i: nat, addr: nat, next: nat) returns (full: bool)
      requires Valid() && Opened(tokens) && 1 <= level && PT.WellFormed(level, kids)
      requires i == PT.Index(level, addr) && addr < next <= PT.BlockEnd(level, addr)
      requires addr % PAGE_SIZE == 0 && next % PAGE_SIZE == 0
      modifies this`pieRead, this`nextHva, this`restartGpa, this`tokens, this`accessed, this`overrun, kpie
      ensures Valid() && Opened(tokens)
      ensures Walked(W(), full) == Flat(PT.ViewOf(level, kids), old(W()), addr, next)
      decreases level, 0
    {
      ghost var v, w := PT.ViewOf(level, kids), W();
      match kids[i]
      case Table(sub) =>
        FlatSub(level, kids, sub, w, addr, next);
        if level == 1 {
          full := EptPteRange(sub, addr, next);
        } else {
          full := EptRange(level - 1, sub, addr, next);
        }
      case Page =>
        FlatEntry(v, w, addr, next);
        full := VisitEntry(PT.Block(level, true), addr, next);
      case Hole =>
        FlatEntry(v, w, addr, next);
        if level == 1 {
          full := VisitEntry(PT.Block(1, false), addr, next);
        } else {
          restartGpa := next;
          full := false;
        }
    }
  }

  lemma JumpSize(c: Ctrl, addr: int, t: ItemType)
    requires Jumps(c, addr)
    ensures Size(Pushed(c, addr, t)) == Size(c.tokens) + 10
  {
    SizeSnoc(c.tokens, SetHva(RoundDown(addr, t) + c.gpaToHva));
    SizeSnoc(c.tokens + [SetHva(RoundDown(addr, t) + c.gpaToHva)], Run(t, 1));
  }

  lemma JumpAdded(c: Ctrl, addr: int, next: int, t: ItemType, n: int) returns (r: Added)
    requires Jumps(c, addr) && n == RoundUp(next, t)
    ensures r == EptEncoder.AddPage(c, addr, next, t)
    ensures IsHole(t) ==> r == Added(c.(restartGpa := n), false)
    ensures !IsHole(t) && Size(c.tokens) + 8 + 2 >= AsSize(c.pieReadMax) ==>
              r == Added(c.(restartGpa := addr), true)
    ensures !IsHole(t) && Size(c.tokens) + 8 + 2 < AsSize(c.pieReadMax) && Size(c.tokens) + 1 + 8 + 1 > KBUF_SIZE ==>
              r == Added(c.(restartGpa := addr, overrun := true), true)
    ensures !IsHole(t) && Size(c.tokens) + 8 + 2 < AsSize(c.pieReadMax) && Size(c.tokens) + 1 + 8 + 1 <= KBUF_SIZE ==>
              r == Added(c.(tokens := c.tokens + [SetHva(RoundDown(addr, t) + c.gpaToHva)] + [Run(t, 1)],
                            nextHva := n + c.gpaToHva, restartGpa := n), false)
  {
    r := EptEncoder.AddPage(c, addr, next, t);
    JumpSize(c, addr, t);
  }

  /** The entry after the last one always fits into kpie, which is longer than the limit. */
  lemma NextFits(c: Ctrl, addr: int, t: ItemType)
    requires Opened(c.tokens) && !Jumps(c, addr) && Size(c.tokens) <= KBUF_SIZE && c.pieReadMax <= KBUF_SIZE
    ensures !Overruns(c, addr, t)
  {
    if GrowsLast(c, addr, t) {
      GrownByte(c.tokens);
      assert Pushed(c, addr, t) == Grown(c.tokens);
    } else {
      SizeSnoc(c.tokens, Run(t, 1));
    }
  }

  lemma NextAdded(c: Ctrl, addr: int, next: int, t: ItemType)
    requires Opened(c.tokens) && !Jumps(c, addr) && Size(c.tokens) <= KBUF_SIZE && c.pieReadMax <= KBUF_SIZE
    ensures var n, last := RoundUp(next, t), c.tokens[|c.tokens| - 1];
            && last.Run?
            && EptEncoder.AddPage(c, addr, next, t)
               == if last.t == t && last.nr < 15
                  then Added(c.(tokens := Grown(c.tokens), nextHva := n + c.gpaToHva, restartGpa := n), false)
                  else if Size(c.tokens) >= c.pieReadMax then Added(c.(restartGpa := addr), true)
                  else Added(c.(tokens := c.tokens + [Run(t, 1)], nextHva := n + c.gpaToHva, restartGpa := n), false)
  {
    NextFits(c, addr, t);
  }

  // ----- Loops over a table -----

  lemma FlatStep(v: PT.View, level: nat, w: Walk, r: Walked, addr: nat, next: nat, end: nat)
    requires forall x: nat :: v(x).level <= level
    requires addr <= next <= end && (next == end || next % PT.BlockSize(level) == 0)
    requires r == Flat(v, w, addr, next)
    ensures r.full || next == end ==> Flat(v, w, addr, end) == r
    ensures !r.full ==> Flat(v, w, addr, end) == Flat(v, r.w, next, end)
  {
    FlatSplit(v, level, w, addr, next, end);
  }

  lemma NextPte(addr: nat, next: nat, end: nat)
    requires addr < end && addr % PAGE_SIZE == 0 && end % PAGE_SIZE == 0 && next == addr + PAGE_SIZE
    ensures next == PT.BlockEnd(0, addr) == PT.AddrEnd(0, addr, end)
    ensures next % PAGE_SIZE == 0 && next % PT.BlockSize(0) == 0
  {
    assert PT.BlockSize(0) == PAGE_SIZE;
    ModSub(addr, end, PAGE_SIZE);
    MulMod(PAGE_SIZE, 1);
    ModAdd(addr, PAGE_SIZE, PAGE_SIZE);
  }

  lemma PteEntry(kids: seq<PT.Node>, w: Walk, addr: nat, next: nat)
    requires PT.WellFormed(0, kids) && next == PT.BlockEnd(0, addr)
    ensures var v := PT.ViewOf(0, kids);
            Flat(v, w, addr, next) == Visit(w, PT.Block(0, kids[PT.Index(0, addr)].Page?), addr, next)
  {
    var v := PT.ViewOf(0, kids);
    assert v(addr) == PT.Block(0, kids[PT.Index(0, addr)].Page?);
    FlatEntry(v, w, addr, next);
  }

  // ----- The last byte of a buffer -----

  lemma CommandBytes(buf: seq<byte>, at: nat, was: seq<byte>, addr: int)
    requires at + 9 <= |buf| && buf[..at + 1] == was + [PIP_CMD_SET_HVA]
    requires buf[at + 1..at + 9] == ToBytes(addr % U64_RANGE, 8)
    ensures buf[..at + 9] == was + TokenBytes(SetHva(addr))
  {
    assert buf[..at + 9] == buf[..at + 1] + buf[at + 1..at + 9];
    Associative(was, [PIP_CMD_SET_HVA], ToBytes(addr % U64_RANGE, 8));
  }

  lemma EmptyBuffer(ks: seq<Token>)
    ensures Size(ks) == 0 <==> ks == []
  {
  }

  /** A buffer that ends with an item ends with the item's byte. */
  lemma LastByte(ks: seq<Token>)
    requires ks != [] && ks[|ks| - 1].Run?
    ensures var s, last := Serialize(ks), ks[|ks| - 1];
            s[|s| - 1] == PipCompose(last.t, last.nr) && PipType(s[|s| - 1]) == last.t && PipSize(s[|s| - 1]) == last.nr
  {
    RunByte(ks[|ks| - 1].t, ks[|ks| - 1].nr);
  }

  function Grown(ks: seq<Token>): seq<Token>
    requires ks != [] && ks[|ks| - 1].Run? && ks[|ks| - 1].nr < 15
  {
    ks[..|ks| - 1] + [ks[|ks| - 1].(nr := ks[|ks| - 1].nr + 1)]
  }

  /** Incrementing the last byte in place grows the last run. */
  lemma GrownByte(ks: seq<Token>)
    requires ks != [] && ks[|ks| - 1].Run? && ks[|ks| - 1].nr < 15
    ensures var s := Serialize(ks);
            s[|s| - 1] < 255 && Serialize(Grown(ks)) == s[..|s| - 1] + [s[|s| - 1] + 1]
    ensures Size(Grown(ks)) == Size(ks)
  {
    var init, last := ks[..|ks| - 1], ks[|ks| - 1];
    LastByte(ks);
    SerializeSnoc(init, last.(nr := last.nr + 1));
    assert ks == init + [last];
  }
}
