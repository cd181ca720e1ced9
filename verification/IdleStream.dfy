/** The byte stream between the kernel scanner and the user-space walker
    (kernel_module/ept_idle.h, ProcIdlePages.h): its tokens, its bytes and its meaning. */
module IdleStream {
  import opened Arith

  type byte = x: int | 0 <= x < 256

  const PTE_ACCESSED := 0
  const PMD_ACCESSED := 1
  const PUD_PRESENT := 2
  const PTE_DIRTY := 3
  const PMD_DIRTY := 4
  const PTE_IDLE := 5
  const PMD_IDLE := 6
  const PMD_IDLE_PTES := 7
  const PTE_HOLE := 8
  const PMD_HOLE := 9
  const PIP_CMD := 10
  const PIP_CMD_SET_HVA: byte := 160

  const PAGE_SIZE := 4096
  const PMD_SIZE := 0x20_0000
  const PUD_SIZE := 0x4000_0000
  const U64_RANGE := 0x1_0000_0000_0000_0000

  type PageType = t: int | 0 <= t <= 10

  /** pagetype_size[]: the command type has no size. */
  function PageSize(t: PageType): nat {
    if t == PTE_ACCESSED || t == PTE_DIRTY || t == PTE_IDLE || t == PTE_HOLE then PAGE_SIZE
    else if t == PUD_PRESENT then PUD_SIZE
    else if t == PIP_CMD then 0
    else PMD_SIZE
  }

  predicate IsHole(t: PageType) { t == PTE_HOLE || t == PMD_HOLE }

  function PipType(b: byte): nat { b / 16 }

  function PipSize(b: byte): Nibble { b % 16 }

  function PipCompose(t: PageType, nr: Nibble): byte {
    t * 16 + nr
  }

  type Nibble = n: nat | n < 16

  /** One cursor command or one run of equal pages. */
  datatype Token = SetHva(hva: int) | Run(t: PageType, nr: Nibble)

  predicate ValidToken(k: Token) {
    match k
    case SetHva(hva) => 0 <= hva < U64_RANGE
    case Run(t, nr) => nr > 0
  }

  predicate ValidTokens(ks: seq<Token>) {
    forall i :: 0 <= i < |ks| ==> ValidToken(ks[i])
  }

  // ----- Big-endian words -----

  function ToBytes(n: nat, width: nat): (s: seq<byte>)
    ensures |s| == width
  {
    if width == 0 then [] else ToBytes(n / 256, width - 1) + [n % 256]
  }

  function FromBytes(s: seq<byte>): nat {
    if s == [] then 0 else FromBytes(s[..|s| - 1]) * 256 + s[|s| - 1]
  }

  function Range(width: nat): nat {
    if width == 0 then 1 else 256 * Range(width - 1)
  }

  lemma {:induction false} BytesRoundTrip(n: nat, width: nat)
    requires n < Range(width)
    ensures FromBytes(ToBytes(n, width)) == n
  {
    if width > 0 {
      BytesRoundTrip(n / 256, width - 1);
      var s := ToBytes(n, width);
      assert s[..|s| - 1] == ToBytes(n / 256, width - 1);
    }
  }

  lemma U64RoundTrip(n: nat)
    requires n < U64_RANGE
    ensures FromBytes(ToBytes(n, 8)) == n
  {
    assert Range(4) == 0x1_0000_0000;
    assert Range(8) == U64_RANGE;
    BytesRoundTrip(n, 8);
  }

  /** The high byte comes first. */
  lemma HighByteFirst(s: seq<byte>)
    requires |s| == 8
    ensures var b: seq<int> := s;
            FromBytes(s) == b[0] * 0x100_0000_0000_0000 + b[1] * 0x1_0000_0000_0000 + b[2] * 0x100_0000_0000
                            + b[3] * 0x1_0000_0000 + b[4] * 0x100_0000 + b[5] * 0x1_0000 + b[6] * 0x100 + b[7]
  {
    assert s[..8] == s;
    NextByte(s, 0);
    NextByte(s, 1);
    NextByte(s, 2);
    NextByte(s, 3);
    NextByte(s, 4);
    NextByte(s, 5);
    NextByte(s, 6);
    NextByte(s, 7);
  }

  lemma NextByte(s: seq<byte>, i: nat)
    requires i < |s|
    ensures FromBytes(s[..i + 1]) == FromBytes(s[..i]) * 256 + s[i]
  {
    assert s[..i + 1][..i] == s[..i];
  }

  // ----- Bytes of tokens -----

  /** A word keeps the low 64 bits. */
  function TokenBytes(k: Token): (s: seq<byte>)
    ensures |s| == TokenSize(k)
  {
    match k
    case SetHva(hva) => [PIP_CMD_SET_HVA] + ToBytes(hva % U64_RANGE, 8)
    case Run(t, nr) => [PipCompose(t, nr)]
  }

  function Serialize(ks: seq<Token>): (s: seq<byte>)
    ensures |s| == Size(ks)
  {
    if ks == [] then [] else Serialize(ks[..|ks| - 1]) + TokenBytes(ks[|ks| - 1])
  }

  function TokenSize(k: Token): nat { if k.SetHva? then 9 else 1 }

  /** pie_read: the number of bytes the tokens take. */
  function Size(ks: seq<Token>): nat {
    if ks == [] then 0 else Size(ks[..|ks| - 1]) + TokenSize(ks[|ks| - 1])
  }

  lemma SizeSnoc(ks: seq<Token>, k: Token)
    ensures Size(ks + [k]) == Size(ks) + TokenSize(k)
  {
    assert (ks + [k])[..|ks|] == ks;
  }

  lemma SerializeSnoc(ks: seq<Token>, k: Token)
    ensures Serialize(ks + [k]) == Serialize(ks) + TokenBytes(k)
  {
    assert (ks + [k])[..|ks|] == ks;
  }

  lemma Associative<T>(a: seq<T>, b: seq<T>, c: seq<T>)
    ensures (a + b) + c == a + (b + c)
  {
  }

  lemma {:induction false} SerializeAppend(a: seq<Token>, b: seq<Token>)
    ensures Serialize(a + b) == Serialize(a) + Serialize(b)
  {
    if b == [] {
      assert a + b == a;
    } else {
      var b', k := b[..|b| - 1], b[|b| - 1];
      SerializeAppend(a, b');
      Associative(a, b', [k]);
      assert b == b' + [k];
      SerializeSnoc(a + b', k);
      Associative(Serialize(a), Serialize(b'), TokenBytes(k));
    }
  }

  datatype Option<T> = None | Some(value: T)

  /** Reading the bytes from the front. It fails on a cut command and on a type above PIP_CMD. */
  function Lex(s: seq<byte>): Option<seq<Token>> {
    if s == [] then Some([])
    else if s[0] == PIP_CMD_SET_HVA then
      if |s| < 9 then None
      else Prefixed(SetHva(FromBytes(s[1..9])), Lex(s[9..]))
    else if PipType(s[0]) > PIP_CMD then None
    else Prefixed(Run(PipType(s[0]), PipSize(s[0])), Lex(s[1..]))
  }

  function Prefixed(k: Token, ks: Option<seq<Token>>): Option<seq<Token>> {
    match ks
    case None => None
    case Some(rest) => Some([k] + rest)
  }

  lemma LexHva(word: seq<byte>, rest: seq<byte>)
    requires |word| == 8
    ensures Lex([PIP_CMD_SET_HVA] + word + rest) == Prefixed(SetHva(FromBytes(word)), Lex(rest))
  {
    var s := [PIP_CMD_SET_HVA] + word + rest;
    assert s[1..9] == word && s[9..] == rest;
  }

  lemma LexRun(b: byte, t: PageType, nr: Nibble, rest: seq<byte>)
    requires b != PIP_CMD_SET_HVA && PipType(b) == t && PipSize(b) == nr
    ensures Lex([b] + rest) == Prefixed(Run(t, nr), Lex(rest))
  {
    var s := [b] + rest;
    assert s[1..] == rest;
  }

  lemma RunByte(t: PageType, nr: Nibble)
    ensures PipType(PipCompose(t, nr)) == t && PipSize(PipCompose(t, nr)) == nr
    ensures PipCompose(t, nr) == PIP_CMD_SET_HVA <==> t == PIP_CMD && nr == 0
  {
    DivModUnique(t * 16 + nr, 16, t, nr);
  }

  lemma LexHvaToken(hva: int, rest: seq<byte>)
    requires ValidToken(SetHva(hva))
    ensures Lex(TokenBytes(SetHva(hva)) + rest) == Prefixed(SetHva(hva), Lex(rest))
  {
    U64RoundTrip(hva);
    assert hva % U64_RANGE == hva by { DivModUnique(hva, U64_RANGE, 0, hva); }
    LexHva(ToBytes(hva, 8), rest);
  }

  lemma LexToken(k: Token, rest: seq<byte>)
    requires ValidToken(k)
    ensures Lex(TokenBytes(k) + rest) == Prefixed(k, Lex(rest))
  {
    match k
    case SetHva(hva) => LexHvaToken(hva, rest);
    case Run(t, nr) =>
      RunByte(t, nr);
      LexRun(PipCompose(t, nr), t, nr, rest);
  }

  /** Every valid token sequence is read back from its bytes. */
  lemma {:induction false} LexSerialize(ks: seq<Token>)
    requires ValidTokens(ks)
    ensures Lex(Serialize(ks)) == Some(ks)
  {
    if ks != [] {
      var k, rest := ks[0], ks[1..];
      LexSerialize(rest);
      assert ks == [k] + rest;
      SerializeAppend([k], rest);
      assert [k][..0] == [] && Serialize([]) == [];
      assert Serialize([k]) == TokenBytes(k);
      assert Serialize(ks) == TokenBytes(k) + Serialize(rest);
      LexToken(k, Serialize(rest));
    }
  }

  // ----- What a stream says -----

  datatype Page = Page(va: int, t: PageType)

  /** nr pages of one type from va on. */
  function Expand(va: int, t: PageType, nr: nat): (ps: seq<Page>)
    ensures |ps| == nr
  {
    if nr == 0 then [] else Expand(va, t, nr - 1) + [Page(va + PageSize(t) * (nr - 1), t)]
  }

  datatype Cursor = Cursor(pages: seq<Page>, va: int)

  function Advance(c: Cursor, k: Token): Cursor {
    match k
    case SetHva(hva) => c.(va := hva)
    case Run(t, nr) => Cursor(c.pages + Expand(c.va, t, nr), c.va + PageSize(t) * nr)
  }

  /** The pages a stream lists and the position it ends at, read with the cursor at `va`. */
  function Meaning(va: int, ks: seq<Token>): Cursor {
    if ks == [] then Cursor([], va) else Advance(Meaning(va, ks[..|ks| - 1]), ks[|ks| - 1])
  }

  lemma MeaningSnoc(va: int, ks: seq<Token>, k: Token)
    ensures Meaning(va, ks + [k]) == Advance(Meaning(va, ks), k)
  {
    assert (ks + [k])[..|ks|] == ks;
  }

  /** Growing the last run by one adds one page behind it. */
  lemma MeaningGrow(va: int, ks: seq<Token>, t: PageType, nr: Nibble)
    requires nr < 15
    ensures var c := Meaning(va, ks + [Run(t, nr)]);
            Meaning(va, ks + [Run(t, nr + 1)]) == Cursor(c.pages + [Page(c.va, t)], c.va + PageSize(t))
  {
    MeaningSnoc(va, ks, Run(t, nr));
    MeaningSnoc(va, ks, Run(t, nr + 1));
    var v := Meaning(va, ks).va;
    assert Expand(v, t, nr + 1) == Expand(v, t, nr) + [Page(v + PageSize(t) * nr, t)];
    assert PageSize(t) * (nr + 1) == PageSize(t) * nr + PageSize(t);
  }

  /** A stream that opens with a command does not depend on where the reader's cursor was. */
  lemma {:induction false} MeaningFresh(va: int, va': int, ks: seq<Token>)
    requires ks != [] && ks[0].SetHva?
    ensures Meaning(va, ks) == Meaning(va', ks)
  {
    if |ks| > 1 {
      assert ks[..|ks| - 1][0] == ks[0];
      MeaningFresh(va, va', ks[..|ks| - 1]);
    } else {
      assert ks[..0] == [];
    }
  }

  /** Reading token by token from the front gives the same meaning. */
  lemma {:induction false} MeaningCons(va: int, k: Token, ks: seq<Token>)
    ensures var c := Advance(Cursor([], va), k);
            Meaning(va, [k] + ks) == Cursor(c.pages + Meaning(c.va, ks).pages, Meaning(c.va, ks).va)
  {
    var c := Advance(Cursor([], va), k);
    if ks == [] {
      assert [k] + ks == [k] && [k][..0] == [];
    } else {
      var ks', l := ks[..|ks| - 1], ks[|ks| - 1];
      MeaningCons(va, k, ks');
      assert [k] + ks == ([k] + ks') + [l];
      MeaningSnoc(va, [k] + ks', l);
      var m := Meaning(c.va, ks');
      assert l.Run? ==> (c.pages + m.pages) + Expand(m.va, l.t, l.nr) == c.pages + (m.pages + Expand(m.va, l.t, l.nr));
    }
  }

  /** The second of two streams is read from where the first ends. */
  lemma {:induction false} MeaningAppend(va: int, a: seq<Token>, b: seq<Token>)
    ensures var m := Meaning(va, a);
            Meaning(va, a + b) == Cursor(m.pages + Meaning(m.va, b).pages, Meaning(m.va, b).va)
  {
    var m := Meaning(va, a);
    if b == [] {
      assert a + b == a;
      assert m.pages + [] == m.pages;
    } else {
      var b', k := b[..|b| - 1], b[|b| - 1];
      MeaningAppend(va, a, b');
      Associative(a, b', [k]);
      assert b == b' + [k];
      MeaningSnoc(va, a + b', k);
      MeaningSnoc(m.va, b', k);
      var n := Meaning(m.va, b');
      if k.Run? {
        Associative(m.pages, n.pages, Expand(n.va, k.t, k.nr));
      }
    }
  }
}
