/** Compiling netblock lists into packet filter programs. */
module AddressFilters {
  import opened Octets
  import opened Prefixes

  // ---------------------------------------------------------------------------
  // The machine
  // ---------------------------------------------------------------------------

  datatype Instr =
    | LoadHalf(k: nat)
    | LoadWord(k: nat)
    | And(mask: Word)
    | JumpEq(jt: nat, jf: nat, value: Word)
    | Return(verdict: Word)

  datatype Exit = Returned(verdict: Word) | RanOff

  function Half(frame: seq<Byte>, k: nat): Word
    requires k + 2 <= |frame|
  {
    (frame[k] as Word << 8) | frame[k + 1] as Word
  }

  /** Run a program from a given instruction. A load from beyond the end of the frame
      ends the program with a verdict of zero. All jumps are forwards. */
  function Run(prog: seq<Instr>, pc: nat, acc: Word, frame: seq<Byte>): Exit
    decreases |prog| - pc
  {
    if pc >= |prog| then RanOff
    else
      match prog[pc]
      case LoadHalf(k) =>
        if k + 2 > |frame| then Returned(0) else Run(prog, pc + 1, Half(frame, k), frame)
      case LoadWord(k) =>
        if k + 4 > |frame| then Returned(0) else Run(prog, pc + 1, WordAt(frame, k), frame)
      case And(mask) => Run(prog, pc + 1, Masked(acc, mask), frame)
      case JumpEq(jt, jf, value) =>
        Run(prog, pc + 1 + (if acc == value then jt else jf), acc, frame)
      case Return(verdict) => Returned(verdict)
  }

  // ---------------------------------------------------------------------------
  // The program
  // ---------------------------------------------------------------------------

  const ACCEPT := Return(0xffff_ffff)
  const REJECT := Return(0)
  const ETHERTYPE_INET4: Word := 0x0800
  const ETHERTYPE_INET6: Word := 0x86dd

  function Head(inet4Count: nat): seq<Instr> {
    [LoadHalf(12), JumpEq(2, 0, ETHERTYPE_INET4), JumpEq(1 + inet4Count, 0, ETHERTYPE_INET6), ACCEPT]
  }

  function Block4(nb: Netblock, k: nat): (block: seq<Instr>)
    requires IsInet4(nb)
    ensures |block| == if nb.length != 32 then 4 else 3
  {
    [LoadWord(k)] + (if nb.length != 32 then [And(Mask4(nb.length))] else [])
      + [JumpEq(0, 1, WordAt(nb.prefix, 0)), REJECT]
  }

  function Test6(nb: Netblock, k: nat, i: nat): (test: seq<Instr>)
    requires IsInet6(nb) && i < 4
    ensures |test| == 3
  {
    [LoadWord(k + i * 4), And(Mask6(i * 32, nb.length)), JumpEq(0, 10 - 3 * i, WordAt(nb.prefix, i * 4))]
  }

  /** The tests of the first `n` words of an address. */
  function Tests6(nb: Netblock, k: nat, n: nat): (tests: seq<Instr>)
    requires IsInet6(nb) && n <= 4
    ensures |tests| == n * 3
  {
    if n == 0 then [] else Tests6(nb, k, n - 1) + Test6(nb, k, n - 1)
  }

  function Block6(nb: Netblock, k: nat): (block: seq<Instr>)
    requires IsInet6(nb)
    ensures |block| == 13
  {
    Tests6(nb, k, 4) + [REJECT]
  }

  ghost predicate AllInet4(nbs: seq<Netblock>) { forall nb | nb in nbs :: IsInet4(nb) }

  ghost predicate AllInet6(nbs: seq<Netblock>) { forall nb | nb in nbs :: IsInet6(nb) }

  function Section4(nbs: seq<Netblock>, k: nat): seq<Instr>
    requires AllInet4(nbs)
  {
    if nbs == [] then []
    else Section4(nbs[..|nbs| - 1], k) + Block4(nbs[|nbs| - 1], k)
  }

  function Section6(nbs: seq<Netblock>, k: nat): seq<Instr>
    requires AllInet6(nbs)
  {
    if nbs == [] then []
    else Section6(nbs[..|nbs| - 1], k) + Block6(nbs[|nbs| - 1], k)
  }

  const SRC4 := 26
  const DST4 := 30
  const SRC6 := 22
  const DST6 := 38

  function Part4(v4: seq<Netblock>): seq<Instr>
    requires AllInet4(v4)
  {
    Section4(v4, SRC4) + Section4(v4, DST4) + [ACCEPT]
  }

  function Part6(v6: seq<Netblock>): seq<Instr>
    requires AllInet6(v6)
  {
    Section6(v6, SRC6) + Section6(v6, DST6) + [ACCEPT]
  }

  function Program(v4: seq<Netblock>, v6: seq<Netblock>): seq<Instr>
    requires AllInet4(v4) && AllInet6(v6)
  {
    Head(|Part4(v4)|) + Part4(v4) + Part6(v6)
  }

  // ---------------------------------------------------------------------------
  // What the program means
  // ---------------------------------------------------------------------------

  ghost predicate Hit4(v4: seq<Netblock>, frame: seq<Byte>, k: nat)
    requires AllInet4(v4) && k + 4 <= |frame|
  {
    exists nb | nb in v4 :: Matches4(nb, frame, k)
  }

  ghost predicate Hit6(v6: seq<Netblock>, frame: seq<Byte>, k: nat)
    requires AllInet6(v6) && k + 16 <= |frame|
  {
    exists nb | nb in v6 :: Matches6(nb, frame, k)
  }

  /** Whether an address is in one of the listed netblocks: it has the same bits up to the prefix
      length. (A netblock with other bits set is not taken to contain any address.) */
  ghost predicate Excluded(nbs: seq<Netblock>, frame: seq<Byte>, k: nat, octets: nat)
    requires k + octets <= |frame|
    requires forall nb | nb in nbs :: |nb.prefix| == octets && nb.length <= 8 * octets
  {
    exists nb | nb in nbs :: InBlock(nb, frame, k) && HostBitsZero(nb)
  }

  lemma HitIsExcluded4(v4: seq<Netblock>, frame: seq<Byte>, k: nat)
    requires AllInet4(v4) && k + 4 <= |frame|
    ensures Hit4(v4, frame, k) <==> Excluded(v4, frame, k, 4)
  {
    hide InBlock, HostBitsZero, Matches4;
    forall nb | nb in v4
      ensures Matches4(nb, frame, k) <==> InBlock(nb, frame, k) && HostBitsZero(nb)
    {
      MatchIsAgreement4(nb, frame, k);
    }
  }

  lemma HitIsExcluded6(v6: seq<Netblock>, frame: seq<Byte>, k: nat)
    requires AllInet6(v6) && k + 16 <= |frame|
    ensures Hit6(v6, frame, k) <==> Excluded(v6, frame, k, 16)
  {
    hide InBlock, HostBitsZero, Matches6;
    forall nb | nb in v6
      ensures Matches6(nb, frame, k) <==> InBlock(nb, frame, k) && HostBitsZero(nb)
    {
      MatchIsAgreement6(nb, frame, k);
    }
  }

  /** Long enough to hold the addresses which its Ethertype says it has. */
  ghost predicate LongEnough(frame: seq<Byte>) {
    && |frame| >= 14
    && (Half(frame, 12) == ETHERTYPE_INET4 ==> |frame| >= 34)
    && (Half(frame, 12) == ETHERTYPE_INET6 ==> |frame| >= 54)
  }

  /** What the filter is for: whether a frame carries an IP datagram from or to an
      address in one of the listed netblocks. */
  ghost predicate Rejected(v4: seq<Netblock>, v6: seq<Netblock>, frame: seq<Byte>)
    requires AllInet4(v4) && AllInet6(v6) && LongEnough(frame)
  {
    var ethertype := Half(frame, 12);
    || (ethertype == ETHERTYPE_INET4 && (Excluded(v4, frame, SRC4, 4) || Excluded(v4, frame, DST4, 4)))
    || (ethertype == ETHERTYPE_INET6 && (Excluded(v6, frame, SRC6, 16) || Excluded(v6, frame, DST6, 16)))
  }

  /** The instructions of a part of the program are found where they were put. */
  ghost predicate At(prog: seq<Instr>, pc: nat, part: seq<Instr>) {
    pc + |part| <= |prog| && prog[pc..pc + |part|] == part
  }

  lemma AtSplit(prog: seq<Instr>, pc: nat, l: seq<Instr>, r: seq<Instr>)
    requires At(prog, pc, l + r)
    ensures At(prog, pc, l) && At(prog, pc + |l|, r)
  {
    var s := prog[pc..pc + |l + r|];
    assert s[..|l|] == l && s[|l|..] == r;
    assert prog[pc..pc + |l|] == s[..|l|];
    assert prog[pc + |l|..pc + |l| + |r|] == s[|l|..];
  }

  lemma AtIndex(prog: seq<Instr>, pc: nat, part: seq<Instr>, i: nat)
    requires At(prog, pc, part) && i < |part|
    ensures pc + i < |prog| && prog[pc + i] == part[i]
  {
    assert prog[pc..pc + |part|][i] == prog[pc + i];
  }

  /** One step of the machine. */
  lemma Step(prog: seq<Instr>, pc: nat, acc: Word, frame: seq<Byte>)
    requires pc < |prog|
    ensures Run(prog, pc, acc, frame)
         == match prog[pc]
            case LoadHalf(k) =>
              if k + 2 > |frame| then Returned(0) else Run(prog, pc + 1, Half(frame, k), frame)
            case LoadWord(k) =>
              if k + 4 > |frame| then Returned(0) else Run(prog, pc + 1, WordAt(frame, k), frame)
            case And(mask) => Run(prog, pc + 1, Masked(acc, mask), frame)
            case JumpEq(jt, jf, value) =>
              Run(prog, pc + 1 + (if acc == value then jt else jf), acc, frame)
            case Return(verdict) => Returned(verdict)
  {
  }

  /** One IPv4 block rejects a matching frame and otherwise falls through. */
  lemma RunBlock4(prog: seq<Instr>, pc: nat, acc: Word, frame: seq<Byte>, nb: Netblock, k: nat)
    returns (acc': Word)
    requires IsInet4(nb) && At(prog, pc, Block4(nb, k)) && k + 4 <= |frame|
    ensures Run(prog, pc, acc, frame)
         == if Matches4(nb, frame, k) then Returned(0) else Run(prog, pc + |Block4(nb, k)|, acc', frame)
  {
    hide Run, Masked, WordAt, Mask4, At;
    var value := WordAt(nb.prefix, 0);
    acc' := Masked(WordAt(frame, k), Mask4(nb.length));
    if nb.length != 32 {
      assert Block4(nb, k) == [LoadWord(k), And(Mask4(nb.length)), JumpEq(0, 1, value), REJECT];
      RunMasked(prog, pc, acc, frame, k, Mask4(nb.length), value);
    } else {
      assert Block4(nb, k) == [LoadWord(k), JumpEq(0, 1, value), REJECT];
      FullMask(WordAt(frame, k));
      RunUnmasked(prog, pc, acc, frame, k, value);
    }
  }

  lemma RunMasked(prog: seq<Instr>, pc: nat, acc: Word, frame: seq<Byte>, k: nat, mask: Word, value: Word)
    requires At(prog, pc, [LoadWord(k), And(mask), JumpEq(0, 1, value), REJECT]) && k + 4 <= |frame|
    ensures Run(prog, pc, acc, frame)
         == if Masked(WordAt(frame, k), mask) == value then Returned(0)
            else Run(prog, pc + 4, Masked(WordAt(frame, k), mask), frame)
  {
    hide Run, Masked, WordAt, At;
    var load := [LoadWord(k), And(mask)];
    assert [LoadWord(k), And(mask), JumpEq(0, 1, value), REJECT] == load + [JumpEq(0, 1, value), REJECT];
    AtSplit(prog, pc, load, [JumpEq(0, 1, value), REJECT]);
    AtIndex(prog, pc, load, 0);
    AtIndex(prog, pc, load, 1);
    Step(prog, pc, acc, frame);
    Step(prog, pc + 1, WordAt(frame, k), frame);
    RunTest(prog, pc + 2, Masked(WordAt(frame, k), mask), frame, value);
  }

  lemma RunUnmasked(prog: seq<Instr>, pc: nat, acc: Word, frame: seq<Byte>, k: nat, value: Word)
    requires At(prog, pc, [LoadWord(k), JumpEq(0, 1, value), REJECT]) && k + 4 <= |frame|
    ensures Run(prog, pc, acc, frame)
         == if WordAt(frame, k) == value then Returned(0) else Run(prog, pc + 3, WordAt(frame, k), frame)
  {
    hide Run, Masked, WordAt, At;
    assert [LoadWord(k), JumpEq(0, 1, value), REJECT] == [LoadWord(k)] + [JumpEq(0, 1, value), REJECT];
    AtSplit(prog, pc, [LoadWord(k)], [JumpEq(0, 1, value), REJECT]);
    AtIndex(prog, pc, [LoadWord(k)], 0);
    Step(prog, pc, acc, frame);
    RunTest(prog, pc + 1, WordAt(frame, k), frame, value);
  }

  lemma RunTest(prog: seq<Instr>, pc: nat, acc: Word, frame: seq<Byte>, value: Word)
    requires At(prog, pc, [JumpEq(0, 1, value), REJECT])
    ensures Run(prog, pc, acc, frame) == if acc == value then Returned(0) else Run(prog, pc + 2, acc, frame)
  {
    hide Run;
    AtIndex(prog, pc, [JumpEq(0, 1, value), REJECT], 0);
    AtIndex(prog, pc, [JumpEq(0, 1, value), REJECT], 1);
    Step(prog, pc, acc, frame);
    Step(prog, pc + 1, acc, frame);
  }

  lemma FullMask(w: Word)
    ensures Masked(w, Mask4(32)) == w
  {
    assert Mask4(32) == ALL_ONES;
  }

  /** One IPv6 block tests the four words in turn. */
  lemma {:induction false} RunTests6(prog: seq<Instr>, pc: nat, acc: Word, frame: seq<Byte>,
                                     nb: Netblock, k: nat, n: nat)
    returns (acc': Word)
    requires IsInet6(nb) && At(prog, pc, Block6(nb, k)) && k + 16 <= |frame| && n <= 4
    ensures Run(prog, pc, acc, frame)
         == if forall i: nat | i < n ::
                 WordMatches(frame, k + i * 4, Mask6(i * 32, nb.length), WordAt(nb.prefix, i * 4))
            then Run(prog, pc + n * 3, acc', frame)
            else Run(prog, pc + 13, acc', frame)
    decreases n
  {
    hide Run, Masked, WordAt, Mask6, Block6, WordMatches;
    acc' := acc;
    if n == 0 {
    } else {
      var i := n - 1;
      var a := RunTests6(prog, pc, acc, frame, nb, k, i);
      if forall j: nat | j < i :: WordMatches(frame, k + j * 4, Mask6(j * 32, nb.length), WordAt(nb.prefix, j * 4)) {
        acc' := RunTest6(prog, pc, a, frame, nb, k, i);
      } else {
        acc' := a;
      }
    }
  }

  /** Where the test of a word is in the program. */
  lemma TestAt(prog: seq<Instr>, pc: nat, nb: Netblock, k: nat, i: nat)
    requires IsInet6(nb) && At(prog, pc, Block6(nb, k)) && i < 4
    ensures pc + i * 3 + 2 < |prog|
    ensures prog[pc + i * 3] == LoadWord(k + i * 4) && prog[pc + i * 3 + 1] == And(Mask6(i * 32, nb.length))
    ensures prog[pc + i * 3 + 2] == JumpEq(0, 10 - 3 * i, WordAt(nb.prefix, i * 4))
  {
    hide WordAt, Mask6, Block6;
    TestIndex(nb, k, i, 0);
    TestIndex(nb, k, i, 1);
    TestIndex(nb, k, i, 2);
    AtIndex(prog, pc, Block6(nb, k), i * 3);
    AtIndex(prog, pc, Block6(nb, k), i * 3 + 1);
    AtIndex(prog, pc, Block6(nb, k), i * 3 + 2);
  }

  lemma RunTest6(prog: seq<Instr>, pc: nat, acc: Word, frame: seq<Byte>, nb: Netblock, k: nat, i: nat)
    returns (acc': Word)
    requires IsInet6(nb) && At(prog, pc, Block6(nb, k)) && k + 16 <= |frame| && i < 4
    ensures Run(prog, pc + i * 3, acc, frame)
         == Run(prog, pc + (if WordMatches(frame, k + i * 4, Mask6(i * 32, nb.length), WordAt(nb.prefix, i * 4))
                            then i * 3 + 3 else 13), acc', frame)
  {
    hide Run, Masked, WordAt, Mask6, Block6, At, IsInet6;
    acc' := Masked(WordAt(frame, k + i * 4), Mask6(i * 32, nb.length));
    TestAt(prog, pc, nb, k, i);
    Step(prog, pc + i * 3, acc, frame);
    Step(prog, pc + i * 3 + 1, WordAt(frame, k + i * 4), frame);
    Step(prog, pc + i * 3 + 2, acc', frame);
  }

  lemma TestIndex(nb: Netblock, k: nat, i: nat, j: nat)
    requires IsInet6(nb) && i < 4 && j < 3
    ensures Block6(nb, k)[i * 3 + j] == Test6(nb, k, i)[j]
  {
    hide WordAt, Mask6;
    assert Tests6(nb, k, 1) == Tests6(nb, k, 0) + Test6(nb, k, 0);
    assert Tests6(nb, k, 2) == Tests6(nb, k, 1) + Test6(nb, k, 1);
    assert Tests6(nb, k, 3) == Tests6(nb, k, 2) + Test6(nb, k, 2);
    assert Tests6(nb, k, 4) == Tests6(nb, k, 3) + Test6(nb, k, 3);
  }

  lemma RunBlock6(prog: seq<Instr>, pc: nat, acc: Word, frame: seq<Byte>, nb: Netblock, k: nat)
    returns (acc': Word)
    requires IsInet6(nb) && At(prog, pc, Block6(nb, k)) && k + 16 <= |frame|
    ensures Run(prog, pc, acc, frame)
         == if Matches6(nb, frame, k) then Returned(0) else Run(prog, pc + 13, acc', frame)
  {
    hide Run, Masked, WordAt, Mask6, WordMatches;
    acc' := RunTests6(prog, pc, acc, frame, nb, k, 4);
    AtIndex(prog, pc, Block6(nb, k), 12);
    Step(prog, pc + 12, acc', frame);
  }

  lemma {:induction false} RunSection4(prog: seq<Instr>, pc: nat, acc: Word, frame: seq<Byte>,
                                       nbs: seq<Netblock>, k: nat)
    returns (acc': Word)
    requires AllInet4(nbs) && At(prog, pc, Section4(nbs, k)) && k + 4 <= |frame|
    ensures Run(prog, pc, acc, frame)
         == if Hit4(nbs, frame, k) then Returned(0)
            else Run(prog, pc + |Section4(nbs, k)|, acc', frame)
    decreases |nbs|
  {
    hide Run, Block4, Matches4;
    acc' := acc;
    if nbs == [] {
    } else {
      var front, nb := nbs[..|nbs| - 1], nbs[|nbs| - 1];
      AtSplit(prog, pc, Section4(front, k), Block4(nb, k));
      acc' := RunSection4(prog, pc, acc, frame, front, k);
      if !Hit4(front, frame, k) {
        acc' := RunBlock4(prog, pc + |Section4(front, k)|, acc', frame, nb, k);
        assert forall b :: b in nbs <==> b in front || b == nb;
      }
    }
  }

  lemma {:induction false} RunSection6(prog: seq<Instr>, pc: nat, acc: Word, frame: seq<Byte>,
                                       nbs: seq<Netblock>, k: nat)
    returns (acc': Word)
    requires AllInet6(nbs) && At(prog, pc, Section6(nbs, k)) && k + 16 <= |frame|
    ensures Run(prog, pc, acc, frame)
         == if Hit6(nbs, frame, k) then Returned(0)
            else Run(prog, pc + |Section6(nbs, k)|, acc', frame)
    decreases |nbs|
  {
    hide Run, Block6, Matches6;
    acc' := acc;
    if nbs == [] {
    } else {
      var front, nb := nbs[..|nbs| - 1], nbs[|nbs| - 1];
      AtSplit(prog, pc, Section6(front, k), Block6(nb, k));
      acc' := RunSection6(prog, pc, acc, frame, front, k);
      if !Hit6(front, frame, k) {
        acc' := RunBlock6(prog, pc + |Section6(front, k)|, acc', frame, nb, k);
        assert forall b :: b in nbs <==> b in front || b == nb;
      }
    }
  }

  lemma RunPart4(prog: seq<Instr>, pc: nat, acc: Word, frame: seq<Byte>, v4: seq<Netblock>)
    requires AllInet4(v4) && At(prog, pc, Part4(v4)) && |frame| >= 34
    ensures Run(prog, pc, acc, frame)
         == Returned(if Hit4(v4, frame, SRC4) || Hit4(v4, frame, DST4) then 0 else ALL_ONES)
  {
    hide Run, Section4, Hit4;
    var s, d := Section4(v4, SRC4), Section4(v4, DST4);
    AtSplit(prog, pc, s + d, [ACCEPT]);
    AtSplit(prog, pc, s, d);
    AtIndex(prog, pc + |s + d|, [ACCEPT], 0);
    var a := RunSection4(prog, pc, acc, frame, v4, SRC4);
    var b := RunSection4(prog, pc + |s|, a, frame, v4, DST4);
    Step(prog, pc + |s + d|, b, frame);
  }

  lemma RunPart6(prog: seq<Instr>, pc: nat, acc: Word, frame: seq<Byte>, v6: seq<Netblock>)
    requires AllInet6(v6) && At(prog, pc, Part6(v6)) && |frame| >= 54
    ensures Run(prog, pc, acc, frame)
         == Returned(if Hit6(v6, frame, SRC6) || Hit6(v6, frame, DST6) then 0 else ALL_ONES)
  {
    hide Run, Section6, Hit6;
    var s, d := Section6(v6, SRC6), Section6(v6, DST6);
    AtSplit(prog, pc, s + d, [ACCEPT]);
    AtSplit(prog, pc, s, d);
    AtIndex(prog, pc + |s + d|, [ACCEPT], 0);
    var a := RunSection6(prog, pc, acc, frame, v6, SRC6);
    var b := RunSection6(prog, pc + |s|, a, frame, v6, DST6);
    Step(prog, pc + |s + d|, b, frame);
  }

  /** The compiled program rejects exactly the frames which the lists exclude, and
      accepts the rest whole. */
  lemma CompilerCorrect(v4: seq<Netblock>, v6: seq<Netblock>, frame: seq<Byte>)
    requires AllInet4(v4) && AllInet6(v6) && LongEnough(frame)
    ensures Run(Program(v4, v6), 0, 0, frame)
         == Returned(if Rejected(v4, v6, frame) then 0 else ALL_ONES)
  {
    hide Run, Part4, Part6, Hit4, Hit6, Excluded, Half;
    var prog := Program(v4, v6);
    var p4, p6 := Part4(v4), Part6(v6);
    var head := Head(|p4|);
    assert prog == head + p4 + p6;
    assert prog[0] == head[0] && prog[1] == head[1] && prog[2] == head[2] && prog[3] == head[3];
    assert prog[4..4 + |p4|] == p4;
    assert prog[4 + |p4|..] == p6;
    var ethertype := Half(frame, 12);
    Step(prog, 0, 0, frame);
    Step(prog, 1, ethertype, frame);
    Step(prog, 2, ethertype, frame);
    Step(prog, 3, ethertype, frame);
    if ethertype == ETHERTYPE_INET4 {
      RunPart4(prog, 4, ethertype, frame, v4);
      HitIsExcluded4(v4, frame, SRC4);
      HitIsExcluded4(v4, frame, DST4);
    } else if ethertype == ETHERTYPE_INET6 {
      RunPart6(prog, 4 + |p4|, ethertype, frame, v6);
      HitIsExcluded6(v6, frame, SRC6);
      HitIsExcluded6(v6, frame, DST6);
    }
  }

  // ---------------------------------------------------------------------------
  // Every frame, however short
  // ---------------------------------------------------------------------------

  /** Every jump lands inside the program, and the last instruction does not fall off it. */
  ghost predicate Contained(prog: seq<Instr>) {
    && prog != []
    && prog[|prog| - 1].Return?
    && forall i :: 0 <= i < |prog| && prog[i].JumpEq? ==>
         i + 1 + prog[i].jt < |prog| && i + 1 + prog[i].jf < |prog| && prog[i].jt <= 255 && prog[i].jf <= 255
  }

  lemma {:induction false} ContainedTerminates(prog: seq<Instr>, pc: nat, acc: Word, frame: seq<Byte>)
    requires Contained(prog) && pc < |prog|
    ensures Run(prog, pc, acc, frame).Returned?
    decreases |prog| - pc
  {
    hide Half, WordAt;
    match prog[pc]
    case LoadHalf(k) =>
      if k + 2 <= |frame| { ContainedTerminates(prog, pc + 1, Half(frame, k), frame); }
    case LoadWord(k) =>
      if k + 4 <= |frame| { ContainedTerminates(prog, pc + 1, WordAt(frame, k), frame); }
    case And(mask) => ContainedTerminates(prog, pc + 1, Masked(acc, mask), frame);
    case JumpEq(jt, jf, value) =>
      ContainedTerminates(prog, pc + 1 + (if acc == value then jt else jf), acc, frame);
    case Return(_) =>
  }

  /** No jump of a part goes further than just beyond its end. */
  ghost predicate Local(part: seq<Instr>) {
    forall i :: 0 <= i < |part| && part[i].JumpEq? ==>
      i + 1 + part[i].jt <= |part| && i + 1 + part[i].jf <= |part| && part[i].jt <= 255 && part[i].jf <= 255
  }

  lemma LocalConcat(l: seq<Instr>, r: seq<Instr>)
    requires Local(l) && Local(r)
    ensures Local(l + r)
  {
  }

  lemma {:induction false} SectionsLocal(nbs: seq<Netblock>, k: nat)
    ensures AllInet4(nbs) ==> Local(Section4(nbs, k))
    ensures AllInet6(nbs) ==> Local(Section6(nbs, k))
    decreases |nbs|
  {
    hide Local, Block4, Block6;
    if nbs == [] {
      assert Local([]) by { LocalNothing(); }
    } else {
      var front, nb := nbs[..|nbs| - 1], nbs[|nbs| - 1];
      SectionsLocal(front, k);
      if AllInet4(nbs) {
        Block4Local(nb, k);
        LocalConcat(Section4(front, k), Block4(nb, k));
      }
      if AllInet6(nbs) {
        Block6Local(nb, k);
        LocalConcat(Section6(front, k), Block6(nb, k));
      }
    }
  }

  lemma LocalNothing()
    ensures Local([])
  {
  }

  lemma Block4Local(nb: Netblock, k: nat)
    requires IsInet4(nb)
    ensures Local(Block4(nb, k))
  {
    hide WordAt, Mask4;
  }

  lemma Block6Local(nb: Netblock, k: nat)
    requires IsInet6(nb)
    ensures Local(Block6(nb, k))
  {
    hide WordAt, Mask6, Block6;
    var block := Block6(nb, k);
    forall i | 0 <= i < |block| && block[i].JumpEq?
      ensures i + 1 + block[i].jt <= 13 && i + 1 + block[i].jf <= 13 && block[i].jt <= 255 && block[i].jf <= 255
    {
      if i == 12 {
        LastIs(nb, k);
      } else {
        TestIndex(nb, k, i / 3, i % 3);
        assert i == i / 3 * 3 + i % 3;
      }
    }
  }

  lemma LastIs(nb: Netblock, k: nat)
    requires IsInet6(nb)
    ensures Block6(nb, k)[12] == REJECT
  {
  }

  /** Whatever the frame, the compiled program stays within itself and reaches a verdict. */
  lemma ProgramContained(v4: seq<Netblock>, v6: seq<Netblock>, frame: seq<Byte>)
    requires AllInet4(v4) && AllInet6(v6) && 1 + |Part4(v4)| <= 255
    ensures Contained(Program(v4, v6))
    ensures Run(Program(v4, v6), 0, 0, frame).Returned?
  {
    hide Run, Section4, Section6;
    SectionsLocal(v4, SRC4);
    SectionsLocal(v4, DST4);
    SectionsLocal(v6, SRC6);
    SectionsLocal(v6, DST6);
    LocalConcat(Section4(v4, SRC4), Section4(v4, DST4));
    LocalConcat(Section6(v6, SRC6), Section6(v6, DST6));
    PartsContained(v4, v6);
    ContainedTerminates(Program(v4, v6), 0, 0, frame);
  }

  lemma PartsContained(v4: seq<Netblock>, v6: seq<Netblock>)
    requires AllInet4(v4) && AllInet6(v6) && 1 + |Part4(v4)| <= 255
    requires Local(Section4(v4, SRC4) + Section4(v4, DST4)) && Local(Section6(v6, SRC6) + Section6(v6, DST6))
    ensures Contained(Program(v4, v6))
  {
    hide Section4, Section6;
    var s4, s6 := Section4(v4, SRC4) + Section4(v4, DST4), Section6(v6, SRC6) + Section6(v6, DST6);
    var prog := Program(v4, v6);
    assert prog == Head(|s4| + 1) + s4 + [ACCEPT] + s6 + [ACCEPT];
    forall i | 0 <= i < |prog| && prog[i].JumpEq?
      ensures i + 1 + prog[i].jt < |prog| && i + 1 + prog[i].jf < |prog| && prog[i].jt <= 255 && prog[i].jf <= 255
    {
      if i < 4 {
        assert prog[i] == Head(|s4| + 1)[i];
      } else if i < 4 + |s4| {
        assert prog[i] == s4[i - 4];
      } else if i > 4 + |s4| && i < 5 + |s4| + |s6| {
        assert prog[i] == s6[i - 5 - |s4|];
      }
    }
  }

  // ---------------------------------------------------------------------------
  // The compiler
  // ---------------------------------------------------------------------------

  class AddressFilter {
    var inet4: seq<Netblock>
    var inet6: seq<Netblock>
    var modified: bool
    var fprog: seq<Instr>
    // The lists from which the held program was compiled.
    ghost var compiled4: seq<Netblock>
    ghost var compiled6: seq<Netblock>

    ghost predicate Valid()
      reads this
    {
      && AllInet4(inet4) && AllInet6(inet6)
      && AllInet4(compiled4) && AllInet6(compiled6)
      && compiled4 <= inet4 && compiled6 <= inet6
      && (!modified ==> fprog == Program(compiled4, compiled6) && 1 + |Part4(compiled4)| <= 255)
    }

    constructor ()
      ensures Valid() && inet4 == [] && inet6 == [] && modified
    {
      inet4, inet6, modified, fprog := [], [], true, [];
      compiled4, compiled6 := [], [];
    }

    /** Add a netblock. (This does not mark the filter as modified.) */
    method AddInet4(nb: Netblock)
      requires Valid() && IsInet4(nb)
      modifies this
      ensures Valid() && inet4 == old(inet4) + [nb] && inet6 == old(inet6)
      ensures modified == old(modified) && fprog == old(fprog)
      ensures compiled4 == old(compiled4) && compiled6 == old(compiled6)
    {
      inet4 := inet4 + [nb];
    }

    method AddInet6(nb: Netblock)
      requires Valid() && IsInet6(nb)
      modifies this
      ensures Valid() && inet6 == old(inet6) + [nb] && inet4 == old(inet4)
      ensures modified == old(modified) && fprog == old(fprog)
      ensures compiled4 == old(compiled4) && compiled6 == old(compiled6)
    {
      inet6 := inet6 + [nb];
    }

    /** The program for the lists as they were when first compiled. */
    method Compile() returns (r: Result<seq<Instr>>)
      requires Valid()
      modifies this
      ensures Valid() && inet4 == old(inet4) && inet6 == old(inet6)
      ensures old(modified) && 1 + |Part4(inet4)| > 255 ==> r == Err(Invalid) && modified
      ensures old(modified) && 1 + |Part4(inet4)| <= 255 ==>
                r == Ok(Program(inet4, inet6)) && !modified && compiled4 == inet4 && compiled6 == inet6
      ensures !old(modified) ==>
                && r == Ok(Program(old(compiled4), old(compiled6))) && !modified
                && compiled4 == old(compiled4) && compiled6 == old(compiled6)
    {
      if modified {
        var prog := CompileLists(inet4, inet6);
        if prog.Err? {
          return prog;
        }
        fprog := prog.value;
        compiled4, compiled6 := inet4, inet6;
        modified := false;
      }
      r := Ok(fprog);
    }

    /** Whether the filter is taken to have no effect. Only the IPv4 list is looked at, so
        the answer is right except when there are IPv6 netblocks and no others. */
    method Empty() returns (e: bool)
      ensures (e <==> inet4 == [] && inet6 == []) <==> !(inet4 == [] && inet6 != [])
    {
      e := inet4 == [];
    }
  }

  /** The number of instructions for the IPv4 lists, as computed in advance. */
  method CountInet4(v4: seq<Netblock>) returns (count: nat)
    requires AllInet4(v4)
    ensures count == |Part4(v4)|
  {
    count := |v4| * 6 + 1;
    var i := 0;
    while i < |v4|
      invariant 0 <= i <= |v4|
      invariant count == |v4| * 6 + 1 + (|Section4(v4[..i], SRC4)| - i * 3) * 2
    {
      assert v4[..i + 1][..i] == v4[..i];
      if v4[i].length != 32 {
        count := count + 2;
      }
      i := i + 1;
    }
    assert v4[..i] == v4;
    SectionLengths(v4, [], SRC4, DST4);
  }

  lemma {:induction false} SectionLengths(v4: seq<Netblock>, v6: seq<Netblock>, k: nat, l: nat)
    requires AllInet4(v4) && AllInet6(v6)
    ensures |Section4(v4, k)| == |Section4(v4, l)| >= |v4| * 3
    ensures |Section6(v6, k)| == |v6| * 13
    decreases |v4| + |v6|
  {
    hide Block4, Block6;
    if v4 == [] {
    } else {
      SectionLengths(v4[..|v4| - 1], [], k, l);
    }
    if v6 == [] {
    } else {
      SectionLengths([], v6[..|v6| - 1], k, l);
    }
  }

  /** Copy some instructions into an array at an index. */
  method Emit(filter: array<Instr>, idx: nat, instrs: seq<Instr>) returns (next: nat)
    requires idx + |instrs| <= filter.Length
    modifies filter
    ensures next == idx + |instrs|
    ensures filter[..next] == old(filter[..idx]) + instrs
  {
    forall j | 0 <= j < |instrs| {
      filter[idx + j] := instrs[j];
    }
    next := idx + |instrs|;
  }

  method EmitSection4(filter: array<Instr>, idx: nat, v4: seq<Netblock>, k: nat) returns (next: nat)
    requires AllInet4(v4) && idx + |Section4(v4, k)| <= filter.Length
    modifies filter
    ensures next == idx + |Section4(v4, k)|
    ensures filter[..next] == old(filter[..idx]) + Section4(v4, k)
  {
    hide Block4;
    next := idx;
    var i := 0;
    assert v4[..0] == [];
    while i < |v4|
      invariant 0 <= i <= |v4|
      invariant next == idx + |Section4(v4[..i], k)| <= filter.Length
      invariant filter[..next] == old(filter[..idx]) + Section4(v4[..i], k)
    {
      SectionMonotone(v4, [], i + 1, k);
      assert v4[..i + 1][..i] == v4[..i];
      next := Emit(filter, next, Block4(v4[i], k));
      i := i + 1;
    }
    assert v4[..i] == v4;
  }

  method EmitBlock6(filter: array<Instr>, idx: nat, nb: Netblock, k: nat) returns (next: nat)
    requires IsInet6(nb) && idx + 13 <= filter.Length
    modifies filter
    ensures next == idx + 13
    ensures filter[..next] == old(filter[..idx]) + Block6(nb, k)
  {
    hide Test6;
    next := idx;
    var i := 0;
    while i != 4
      invariant 0 <= i <= 4
      invariant next == idx + i * 3
      invariant filter[..next] == old(filter[..idx]) + Tests6(nb, k, i)
    {
      next := Emit(filter, next, Test6(nb, k, i));
      i := i + 1;
    }
    next := Emit(filter, next, [REJECT]);
  }

  method EmitSection6(filter: array<Instr>, idx: nat, v6: seq<Netblock>, k: nat) returns (next: nat)
    requires AllInet6(v6) && idx + |Section6(v6, k)| <= filter.Length
    modifies filter
    ensures next == idx + |Section6(v6, k)|
    ensures filter[..next] == old(filter[..idx]) + Section6(v6, k)
  {
    hide Block6;
    next := idx;
    var i := 0;
    assert v6[..0] == [];
    while i < |v6|
      invariant 0 <= i <= |v6|
      invariant next == idx + |Section6(v6[..i], k)| <= filter.Length
      invariant filter[..next] == old(filter[..idx]) + Section6(v6[..i], k)
    {
      SectionMonotone([], v6, i + 1, k);
      assert v6[..i + 1][..i] == v6[..i];
      next := EmitBlock6(filter, next, v6[i], k);
      i := i + 1;
    }
    assert v6[..i] == v6;
  }

  lemma {:induction false} SectionMonotone(v4: seq<Netblock>, v6: seq<Netblock>, i: nat, k: nat)
    requires AllInet4(v4) && AllInet6(v6)
    ensures i <= |v4| ==> |Section4(v4[..i], k)| <= |Section4(v4, k)|
    ensures i <= |v6| ==> |Section6(v6[..i], k)| <= |Section6(v6, k)|
    decreases |v4| + |v6| - i
  {
    hide Block4, Block6;
    if i < |v4| {
      SectionMonotone(v4[..|v4| - 1], [], i, k);
      assert v4[..|v4| - 1][..i] == v4[..i];
    } else {
      assert i == |v4| ==> v4[..i] == v4;
    }
    if i < |v6| {
      SectionMonotone([], v6[..|v6| - 1], i, k);
      assert v6[..|v6| - 1][..i] == v6[..i];
    } else {
      assert i == |v6| ==> v6[..i] == v6;
    }
  }

  /** Emit both sections for one kind of address, and what follows them. */
  method EmitPart4(filter: array<Instr>, idx: nat, v4: seq<Netblock>) returns (next: nat)
    requires AllInet4(v4) && idx + |Part4(v4)| <= filter.Length
    modifies filter
    ensures next == idx + |Part4(v4)|
    ensures filter[..next] == old(filter[..idx]) + Part4(v4)
  {
    hide Section4;
    next := EmitSection4(filter, idx, v4, SRC4);
    next := EmitSection4(filter, next, v4, DST4);
    next := Emit(filter, next, [ACCEPT]);
  }

  method EmitPart6(filter: array<Instr>, idx: nat, v6: seq<Netblock>) returns (next: nat)
    requires AllInet6(v6) && idx + |Part6(v6)| <= filter.Length
    modifies filter
    ensures next == idx + |Part6(v6)|
    ensures filter[..next] == old(filter[..idx]) + Part6(v6)
  {
    hide Section6;
    next := EmitSection6(filter, idx, v6, SRC6);
    next := EmitSection6(filter, next, v6, DST6);
    next := Emit(filter, next, [ACCEPT]);
  }

  /** Compile two lists, unless the IPv4 part is too long to be jumped over. The
      instructions emitted are as many as were counted in advance. */
  method CompileLists(v4: seq<Netblock>, v6: seq<Netblock>) returns (r: Result<seq<Instr>>)
    requires AllInet4(v4) && AllInet6(v6)
    ensures r == if 1 + |Part4(v4)| > 255 then Err(Invalid) else Ok(Program(v4, v6))
  {
    hide Section4, Section6, Part4, Head;
    var inet4Count := CountInet4(v4);
    var inet6Count := |v6| * 26 + 1;
    var count := 4 + inet4Count + inet6Count;
    if 1 + inet4Count > 0xff {
      return Err(Invalid);
    }
    Counts(v6, inet4Count);
    hide Part6;
    var filter := new Instr[count](_ => REJECT);
    var idx := Emit(filter, 0, Head(inet4Count));
    assert filter[..idx] == Head(inet4Count);
    idx := EmitPart4(filter, idx, v4);
    idx := EmitPart6(filter, idx, v6);
    assert idx == count && filter[..] == filter[..idx];
    r := Ok(filter[..]);
  }

  lemma Counts(v6: seq<Netblock>, inet4Count: nat)
    requires AllInet6(v6)
    ensures |Head(inet4Count)| == 4 && |Part6(v6)| == |v6| * 26 + 1
  {
    hide Section6;
    SectionLengths([], v6, SRC6, SRC6);
    SectionLengths([], v6, DST6, DST6);
  }

  lemma RejectedMore(v4: seq<Netblock>, v6: seq<Netblock>, more4: seq<Netblock>, more6: seq<Netblock>, frame: seq<Byte>)
    requires AllInet4(v4) && AllInet4(more4) && AllInet4(v4 + more4)
    requires AllInet6(v6) && AllInet6(more6) && AllInet6(v6 + more6) && LongEnough(frame)
    ensures Rejected(v4 + more4, v6 + more6, frame) <==> Rejected(v4, v6, frame) || Rejected(more4, more6, frame)
  {
    hide InBlock, HostBitsZero, Half, IsInet4, IsInet6;
    assert forall nb :: nb in v4 + more4 <==> nb in v4 || nb in more4;
    assert forall nb :: nb in v6 + more6 <==> nb in v6 || nb in more6;
  }

  /** A program compiled before netblocks were added gives the right verdict on a frame, for the
      lists as they are now, exactly if the additions make no difference to that frame. */
  lemma StaleProgram(v4: seq<Netblock>, v6: seq<Netblock>, more4: seq<Netblock>, more6: seq<Netblock>, frame: seq<Byte>)
    requires AllInet4(v4) && AllInet4(more4) && AllInet4(v4 + more4)
    requires AllInet6(v6) && AllInet6(more6) && AllInet6(v6 + more6) && LongEnough(frame)
    ensures Run(Program(v4, v6), 0, 0, frame)
         == Returned(if Rejected(v4 + more4, v6 + more6, frame) then 0 else ALL_ONES)
       <==> (Rejected(more4, more6, frame) ==> Rejected(v4, v6, frame))
  {
    hide Run, Program, Rejected;
    CompilerCorrect(v4, v6, frame);
    RejectedMore(v4, v6, more4, more6, frame);
  }

  /** An IPv4 frame of the least length, from and to the address 0.0.0.0. */
  const SAMPLE_FRAME: seq<Byte> := [0, 0, 0, 0, 0, 0, 0, 0, 0, 0, 0, 0, 8, 0] + seq(20, i => 0)

  const SAMPLE_NETBLOCK := Netblock([0, 0, 0, 0], 32)

  /** Such a frame gets through: a filter which was empty when it was first compiled goes on
      accepting frames from an address which has been added to it since. */
  lemma StaleProgramAccepts()
    ensures LongEnough(SAMPLE_FRAME) && IsInet4(SAMPLE_NETBLOCK)
    ensures Rejected([SAMPLE_NETBLOCK], [], SAMPLE_FRAME)
    ensures Run(Program([], []), 0, 0, SAMPLE_FRAME) == Returned(ALL_ONES)
  {
    hide Run, Program;
    assert Half(SAMPLE_FRAME, 12) == ETHERTYPE_INET4;
    SampleExcluded();
    CompilerCorrect([], [], SAMPLE_FRAME);
  }

  lemma SampleExcluded()
    ensures Excluded([SAMPLE_NETBLOCK], SAMPLE_FRAME, SRC4, 4)
  {
    hide Bit;
    assert SAMPLE_NETBLOCK in [SAMPLE_NETBLOCK];
  }
}
