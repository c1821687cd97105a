/** The event capability bitmap of the wireless extensions: one bit for each command. */
module EventCapa {
  const SIOCSIWCOMMIT: bv32 := 0x8B00
  const SIOCIWFIRSTPRIV: bv32 := 0x8BE0

  // The words of event_capa.
  const WORDS := 6

  // IW_EVENT_CAPA_BASE, _INDEX and _MASK.
  function Base(cmd: bv32): bv32 {
    if cmd >= SIOCIWFIRSTPRIV then cmd - SIOCIWFIRSTPRIV + 0x60 else cmd - SIOCSIWCOMMIT
  }

  function High(base: bv32): bv32 { base >> 5 }

  function Low(base: bv32): (k: bv32)
    ensures k < 32
  {
    base & 0x1F
  }

  function Index(cmd: bv32): bv32 { High(Base(cmd)) }

  function Bit(k: bv32): bv32
    requires k < 32
  {
    1 << k
  }

  function Mask(cmd: bv32): bv32 { Bit(Low(Base(cmd))) }

  // Setting and testing the bits of a mask in a word.
  function Or(w: bv32, m: bv32): bv32 { w | m }

  function And(w: bv32, m: bv32): bv32 { w & m }

  predicate Meets(w: bv32, m: bv32) { And(w, m) != 0 }

  // The commands whose bit lies inside the words: those below the private range up to 0x8BBF,
  // and the first 0x60 private ones.
  predicate Fits(cmd: bv32) {
    SIOCSIWCOMMIT <= cmd < 0x8BC0 || SIOCIWFIRSTPRIV <= cmd < 0x8C40
  }

  // The commands that the bitmap is made for: the standard ones and the private ones.
  predicate Command(cmd: bv32) {
    SIOCSIWCOMMIT <= cmd < 0x8B60 || SIOCIWFIRSTPRIV <= cmd < 0x8C40
  }

  // Two commands that share a bit.
  predicate SameBit(c: bv32, d: bv32) {
    Index(c) == Index(d) && Mask(c) == Mask(d)
  }

  // A standard command above 0x8B5F and the private command 0x80 above it.
  predicate Partners(c: bv32, d: bv32) {
    0x8B60 <= c < 0x8BC0 && d == c + 0x80
  }

  /** Exactly the commands that fit have their word inside the array. */
  lemma IndexFits(cmd: bv32)
    requires SIOCSIWCOMMIT <= cmd
    ensures Fits(cmd) <==> Index(cmd) < 6
  {
  }

  lemma OneBit(k: bv32, l: bv32)
    requires k < 32 && l < 32
    ensures Bit(k) == Bit(l) <==> k == l
    ensures Meets(Bit(k), Bit(l)) <==> k == l
  {
  }

  lemma BaseParts(b: bv32, d: bv32)
    ensures High(b) == High(d) && Low(b) == Low(d) <==> b == d
  {
  }

  // Sharing a bit is having the same base.
  lemma SameBase(c: bv32, d: bv32)
    ensures SameBit(c, d) <==> Base(c) == Base(d)
    ensures Index(c) == Index(d) ==> (Meets(Mask(c), Mask(d)) <==> SameBit(c, d))
  {
    hide Base, Bit, Meets, High, Low;
    OneBit(Low(Base(c)), Low(Base(d)));
    BaseParts(Base(c), Base(d));
  }

  lemma WhenSameBase(c: bv32, d: bv32)
    requires Fits(c) && Fits(d)
    ensures Base(c) == Base(d) <==> c == d || Partners(c, d) || Partners(d, c)
    ensures Command(c) && Command(d) ==> !Partners(c, d) && !Partners(d, c)
  {
  }

  /** Two commands that fit share a bit exactly when they are equal or partners: 0x8B60..0x8BBF
      and the private command 0x80 above. No two of the commands that the bitmap is made for
      share one. */
  lemma WhenSameBit(c: bv32, d: bv32)
    requires Fits(c) && Fits(d)
    ensures SameBit(c, d) <==> c == d || Partners(c, d) || Partners(d, c)
    ensures Command(c) && Command(d) ==> (SameBit(c, d) <==> c == d)
  {
    hide Base, SameBit, Fits, Command, Partners;
    SameBase(c, d);
    WhenSameBase(c, d);
  }

  // ---- The bitmap ----

  // The number of the word that holds the bit of a command.
  function Word(cmd: bv32): (i: nat)
    requires Fits(cmd)
    ensures i < WORDS
  {
    IndexFits(cmd);
    NumberOf(Index(cmd), Index(cmd));
    Index(cmd) as nat
  }

  lemma NumberOf(i: bv32, j: bv32)
    requires i < 6 && j < 6
    ensures i as nat < WORDS && j as nat < WORDS && (i as nat == j as nat <==> i == j)
  {
  }

  lemma SameWord(c: bv32, d: bv32)
    requires Fits(c) && Fits(d)
    ensures Word(c) == Word(d) <==> Index(c) == Index(d)
  {
    IndexFits(c);
    IndexFits(d);
    hide Fits, Index;
    NumberOf(Index(c), Index(d));
  }

  lemma Distributes(w: bv32, m: bv32, n: bv32)
    ensures And(Or(w, m), n) == Or(And(w, n), And(m, n))
  {
  }

  lemma OrIsZero(w: bv32, m: bv32)
    ensures Or(w, m) == 0 <==> w == 0 && m == 0
  {
  }

  lemma OrMeets(w: bv32, m: bv32, n: bv32)
    ensures Meets(Or(w, m), n) <==> Meets(w, n) || Meets(m, n)
  {
    hide And, Or;
    Distributes(w, m, n);
    OrIsZero(And(w, n), And(m, n));
  }

  // Whether the bit of a command is set.
  predicate Has(capa: seq<bv32>, cmd: bv32)
    requires |capa| == WORDS && Fits(cmd)
  {
    Meets(capa[Word(cmd)], Mask(cmd))
  }

  // The words after a mask has been set in one of them.
  function WithBit(capa: seq<bv32>, cmd: bv32): (r: seq<bv32>)
    requires |capa| == WORDS && Fits(cmd)
  {
    capa[Word(cmd) := Or(capa[Word(cmd)], Mask(cmd))]
  }

  lemma MaskSet(capa: seq<bv32>, i: nat, m: bv32, j: nat, n: bv32)
    requires i < |capa| && j < |capa|
    ensures Meets(capa[i := Or(capa[i], m)][j], n) <==> Meets(capa[j], n) || (i == j && Meets(m, n))
  {
    hide Or, Meets;
    OrMeets(capa[i], m, n);
  }

  lemma MasksMeet(c: bv32, d: bv32)
    requires Fits(c) && Fits(d)
    ensures Word(c) == Word(d) && Meets(Mask(c), Mask(d)) <==> SameBit(c, d)
  {
    hide Fits, Meets, Word, Mask, Index;
    SameWord(c, d);
    SameBase(c, d);
  }

  lemma WithBitHas(capa: seq<bv32>, cmd: bv32, c: bv32)
    requires |capa| == WORDS && Fits(cmd) && Fits(c)
    ensures Has(WithBit(capa, cmd), c) <==> Has(capa, c) || SameBit(cmd, c)
  {
    hide Fits, Meets, Or, Word, Mask, SameBit;
    MaskSet(capa, Word(cmd), Mask(cmd), Word(c), Mask(c));
    MasksMeet(cmd, c);
  }

  /** IW_EVENT_CAPA_SET. */
  method Set(capa: array<bv32>, cmd: bv32)
    requires capa.Length == WORDS && Fits(cmd)
    modifies capa
    ensures capa[..] == WithBit(old(capa[..]), cmd)
  {
    hide Base, Mask, Index, Or, Fits, Word;
    capa[Word(cmd)] := Or(capa[Word(cmd)], Mask(cmd));
  }

  // ---- Runs ----

  predicate AllFit(cmds: seq<bv32>) {
    forall k :: 0 <= k < |cmds| ==> Fits(cmds[k])
  }

  // The words after the commands have been added one after the other.
  function SetAll(capa: seq<bv32>, cmds: seq<bv32>): (r: seq<bv32>)
    requires |capa| == WORDS && AllFit(cmds)
    ensures |r| == WORDS
  {
    if cmds == [] then capa else WithBit(SetAll(capa, cmds[..|cmds| - 1]), cmds[|cmds| - 1])
  }

  predicate Shares(cmds: seq<bv32>, c: bv32) {
    exists k :: 0 <= k < |cmds| && SameBit(cmds[k], c)
  }

  lemma {:induction false} SetAllHas(capa: seq<bv32>, cmds: seq<bv32>, c: bv32)
    requires |capa| == WORDS && AllFit(cmds) && Fits(c)
    ensures Has(SetAll(capa, cmds), c) <==> Has(capa, c) || Shares(cmds, c)
  {
    hide Has, WithBit, Fits, SameBit;
    if cmds != [] {
      var n := |cmds| - 1;
      SetAllHas(capa, cmds[..n], c);
      WithBitHas(SetAll(capa, cmds[..n]), cmds[n], c);
      assert forall k :: 0 <= k < n ==> cmds[..n][k] == cmds[k];
    }
  }

  predicate Empty(capa: seq<bv32>) {
    |capa| == WORDS && forall i :: 0 <= i < WORDS ==> capa[i] == 0
  }

  lemma EmptyHas(capa: seq<bv32>, c: bv32)
    requires Empty(capa) && Fits(c)
    ensures !Has(capa, c)
  {
    hide Fits, Mask, Word;
  }

  /** From empty words, after any sequence of commands, a bit is set exactly when its command
      or a partner of it was added. */
  lemma BitmapHas(capa: seq<bv32>, cmds: seq<bv32>, c: bv32)
    requires Empty(capa) && AllFit(cmds) && Fits(c)
    ensures Has(SetAll(capa, cmds), c)
            <==> exists k :: 0 <= k < |cmds| && (cmds[k] == c || Partners(cmds[k], c) || Partners(c, cmds[k]))
  {
    hide Has, SetAll, Fits, SameBit, Partners;
    SetAllHas(capa, cmds, c);
    EmptyHas(capa, c);
    forall k | 0 <= k < |cmds|
      ensures SameBit(cmds[k], c) <==> cmds[k] == c || Partners(cmds[k], c) || Partners(c, cmds[k])
    {
      WhenSameBit(cmds[k], c);
    }
  }

  predicate AllCommands(cmds: seq<bv32>) {
    forall k :: 0 <= k < |cmds| ==> Command(cmds[k])
  }

  lemma CommandFits(c: bv32)
    requires Command(c)
    ensures Fits(c)
  {
  }

  /** The bitmap is a set: among the commands it is made for, a bit is set exactly when its
      command was added. */
  lemma BitmapIsSet(capa: seq<bv32>, cmds: seq<bv32>, c: bv32)
    requires Empty(capa) && AllCommands(cmds) && Command(c)
    ensures AllFit(cmds) && Fits(c) && (Has(SetAll(capa, cmds), c) <==> c in cmds)
  {
    hide Empty, Has, SetAll, Fits, SameBit, Partners, Command;
    CommandFits(c);
    forall k | 0 <= k < |cmds| ensures Fits(cmds[k]) {
      CommandFits(cmds[k]);
    }
    BitmapHas(capa, cmds, c);
    forall k | 0 <= k < |cmds|
      ensures !Partners(cmds[k], c) && !Partners(c, cmds[k])
    {
      WhenSameBase(cmds[k], c);
    }
  }

  lemma WordIs(c: bv32, i: bv32)
    requires Fits(c) && Index(c) == i < 6
    ensures Word(c) == i as nat
  {
    hide Fits, Index;
  }

  /** Where the bits begin: the standard commands at bit 0 of word 0, the private ones at bit 0 of
      word 3. */
  lemma FirstBits()
    ensures Word(0x8B00) == 0 && Mask(0x8B00) == 1
    ensures Word(0x8BE0) == 3 && Mask(0x8BE0) == 1
  {
    WordIs(0x8B00, 0);
    WordIs(0x8BE0, 3);
  }

  // The last command of a word, and a mask moved one bit to the left.
  predicate LastOfWord(c: bv32) { c & 0x1F == 0x1F }

  function Left(m: bv32): bv32 { m << 1 }

  function Succ(b: bv32): bv32 { b + 1 }

  // The base of the next command.
  lemma NextBase(c: bv32)
    requires Fits(c) && Fits(Succ(c)) && c != 0x8BDF
    ensures Base(Succ(c)) == Succ(Base(c)) && (LastOfWord(Base(c)) <==> LastOfWord(c)) && Base(c) < 0xBF
  {
  }

  lemma NextPlace(b: bv32)
    requires b < 0xBF
    ensures !LastOfWord(b) ==> High(Succ(b)) == High(b) && Low(Succ(b)) == Succ(Low(b)) && Low(b) < 31
    ensures LastOfWord(b) ==> High(Succ(b)) == Succ(High(b)) && Low(Succ(b)) == 0 && High(b) < 5
  {
  }

  lemma BitOnTheLeft(k: bv32)
    requires k < 31
    ensures Succ(k) < 32 && Bit(Succ(k)) == Left(Bit(k)) && Bit(0) == 1
  {
  }

  lemma NextNumber(i: bv32)
    requires i < 5
    ensures Succ(i) as nat == i as nat + 1
  {
  }

  lemma NextBitIn(c: bv32)
    requires Fits(c) && Fits(Succ(c)) && c != 0x8BDF
    ensures !LastOfWord(c) ==> Word(Succ(c)) == Word(c) && Mask(Succ(c)) == Left(Mask(c))
    ensures LastOfWord(c) ==> Word(Succ(c)) == Word(c) + 1 && Mask(Succ(c)) == Bit(0)
  {
    hide Fits, Base, High, Low, Bit, Succ, Left, LastOfWord;
    NextBase(c);
    NextPlace(Base(c));
    if LastOfWord(c) {
      NextNumber(Index(c));
    } else {
      BitOnTheLeft(Low(Base(c)));
    }
  }

  /** And how they go on: command by command one bit to the left, 32 to a word. */
  lemma NextBit(c: bv32)
    requires Fits(c) && Fits(c + 1) && c != 0x8BDF
    ensures c & 0x1F != 0x1F ==> Word(c + 1) == Word(c) && Mask(c + 1) == Mask(c) << 1
    ensures c & 0x1F == 0x1F ==> Word(c + 1) == Word(c) + 1 && Mask(c + 1) == 1
  {
    hide Fits, Mask, Word;
    NextBitIn(c);
  }

  // ---- The events of the kernel ----

  // IW_EVENT_CAPA_K_0 and IW_EVENT_CAPA_K_1.
  const IW_EVENT_CAPA_K_0: bv32 := Or(Or(Mask(0x8B04), Mask(0x8B06)), Mask(0x8B1A))
  const IW_EVENT_CAPA_K_1: bv32 := Mask(0x8B2A)

  const KERNEL_EVENTS: seq<bv32> := [0x8B04, 0x8B06, 0x8B1A, 0x8B2A]

  lemma OrAssociates(w: bv32, k: bv32, l: bv32, m: bv32)
    ensures Or(w, Or(Or(k, l), m)) == Or(Or(Or(w, k), l), m)
  {
  }

  lemma KernelWords()
    ensures AllFit(KERNEL_EVENTS)
    ensures Word(0x8B04) == Word(0x8B06) == Word(0x8B1A) == 0 && Word(0x8B2A) == 1
  {
  }

  /** IW_EVENT_CAPA_SET_KERNEL does what setting its four commands one by one does. */
  method SetKernel(capa: array<bv32>)
    requires capa.Length == WORDS
    modifies capa
    ensures AllFit(KERNEL_EVENTS) && capa[..] == SetAll(old(capa[..]), KERNEL_EVENTS)
  {
    hide Or, Mask, Word, Fits;
    KernelWords();
    ghost var s := capa[..];
    capa[0] := Or(capa[0], IW_EVENT_CAPA_K_0);
    capa[1] := Or(capa[1], IW_EVENT_CAPA_K_1);
    assert capa[..] == s[0 := Or(s[0], IW_EVENT_CAPA_K_0)][1 := Or(s[1], IW_EVENT_CAPA_K_1)];
    FourMasks(s, Mask(0x8B04), Mask(0x8B06), Mask(0x8B1A), Mask(0x8B2A));
    FourSets(s, KERNEL_EVENTS);
  }

  lemma FourMasks(s: seq<bv32>, k: bv32, l: bv32, m: bv32, n: bv32)
    requires |s| == WORDS
    ensures var t := s[0 := Or(s[0], k)];
            var u := t[0 := Or(t[0], l)];
            var v := u[0 := Or(u[0], m)];
            s[0 := Or(s[0], Or(Or(k, l), m))][1 := Or(s[1], n)] == v[1 := Or(v[1], n)]
  {
    OrAssociates(s[0], k, l, m);
    hide Or;
  }

  lemma LastSet(s: seq<bv32>, cmds: seq<bv32>, n: nat)
    requires |s| == WORDS && AllFit(cmds) && n < |cmds|
    ensures SetAll(s, cmds[..n + 1]) == WithBit(SetAll(s, cmds[..n]), cmds[n])
  {
    hide WithBit, Fits;
    assert cmds[..n + 1][..n] == cmds[..n];
  }

  lemma FourSets(s: seq<bv32>, cmds: seq<bv32>)
    requires |s| == WORDS && AllFit(cmds) && |cmds| == 4
    ensures SetAll(s, cmds) == WithBit(WithBit(WithBit(WithBit(s, cmds[0]), cmds[1]), cmds[2]), cmds[3])
  {
    hide WithBit, Fits;
    assert cmds[..4] == cmds && cmds[..0] == [] && SetAll(s, []) == s;
    hide SetAll;
    LastSet(s, cmds, 0);
    LastSet(s, cmds, 1);
    LastSet(s, cmds, 2);
    LastSet(s, cmds, 3);
  }

  lemma KernelMasks()
    ensures AllFit(KERNEL_EVENTS) && |KERNEL_EVENTS| == 4
    ensures Mask(KERNEL_EVENTS[0]) == 0x10 && Mask(KERNEL_EVENTS[1]) == 0x40
    ensures Mask(KERNEL_EVENTS[2]) == 0x0400_0000 && Mask(KERNEL_EVENTS[3]) == 0x400
    ensures Word(KERNEL_EVENTS[0]) == Word(KERNEL_EVENTS[1]) == Word(KERNEL_EVENTS[2]) == 0 && Word(KERNEL_EVENTS[3]) == 1
  {
    KernelWords();
  }

  lemma KernelOrs()
    ensures Or(Or(Or(0, 0x10), 0x40), 0x0400_0000) == 0x0400_0050 && Or(0, 0x400) == 0x400
  {
  }

  /** From empty words, the events of the kernel are the bits 4, 6 and 26 of word 0 and bit 10 of
      word 1. */
  lemma KernelBitmap(capa: seq<bv32>)
    requires Empty(capa)
    ensures AllFit(KERNEL_EVENTS) && SetAll(capa, KERNEL_EVENTS) == [0x0400_0050, 0x400, 0, 0, 0, 0]
  {
    hide Mask, Word, Or;
    KernelMasks();
    FourSets(capa, KERNEL_EVENTS);
    KernelOrs();
    assert capa == [0, 0, 0, 0, 0, 0];
  }
}
