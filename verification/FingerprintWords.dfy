/** What the fingerprints cover: they are a byte hash of a word sequence that determines the
    plan, and of the record, and changing one small word always changes the hash. */
module FingerprintWords {
  import opened Architecture
  import opened Seqs
  import opened LedgerTypes
  import opened PlanRules
  import opened PlanEquivalence
  import opened Fingerprint

  // ----- one byte step is a bijection -----

  function Pow2(n: nat): (p: nat)
    ensures p > 0
  {
    if n == 0 then 1 else 2 * Pow2(n - 1)
  }

  lemma {:induction false} XorBound(a: nat, b: nat, n: nat)
    requires a < Pow2(n) && b < Pow2(n)
    ensures Xor(a, b) < Pow2(n)
    decreases n
  {
    if a != 0 && b != 0 { XorBound(a / 2, b / 2, n - 1); }
  }

  /** Exclusive or with the same word undoes itself. */
  lemma {:induction false} XorUndoes(a: nat, b: nat)
    ensures Xor(Xor(a, b), b) == a
    decreases a, b
  {
    if a == 0 {
      XorSelf(b);
    } else if b != 0 {
      XorUndoes(a / 2, b / 2);
      var x := Xor(a, b);
      assert x / 2 == Xor(a / 2, b / 2);
      if x == 0 { assert a == b; }
    }
  }

  lemma {:induction false} XorSelf(a: nat)
    ensures Xor(a, a) == 0
    decreases a
  {
    if a != 0 { XorSelf(a / 2); }
  }

  lemma {:induction false} XorSwaps(a: nat, b: nat)
    ensures Xor(a, b) == Xor(b, a)
    decreases a, b
  {
    if a != 0 && b != 0 { XorSwaps(a / 2, b / 2); }
  }

  /** The multiplier is odd, so it has an inverse modulo 2^64. */
  const INVERSE: nat := 14886173955864302971
  const OVERFLOW: nat := 887285111055

  lemma TimesBack(a: nat)
    requires a < WORD
    ensures a * PRIME % WORD * INVERSE % WORD == a
  {
    assert PRIME * INVERSE == 1 + OVERFLOW * WORD;
    var q := a * PRIME / WORD;
    assert a * PRIME % WORD == a * PRIME - q * WORD;
    assert a * PRIME % WORD * INVERSE == a + (a * OVERFLOW - q * INVERSE) * WORD;
    WholeTurns(a, a * OVERFLOW - q * INVERSE);
  }

  lemma WholeTurns(a: nat, k: int)
    requires a < WORD
    ensures (a + k * WORD) % WORD == a
  {
  }

  /** One byte of the hash. */
  function Step(fp: nat, b: nat): nat {
    Xor(fp, b) * PRIME % WORD
  }

  lemma {:induction false} Pow2Adds(a: nat, b: nat)
    ensures Pow2(a + b) == Pow2(a) * Pow2(b)
    decreases b
  {
    if b > 0 { Pow2Adds(a, b - 1); }
  }

  lemma Pow2Doubled(n: nat, p: nat)
    requires Pow2(n) == p
    ensures Pow2(2 * n) == p * p
  {
    Pow2Adds(n, n);
  }

  lemma SmallPow2()
    ensures Pow2(4) == 16
  {
    assert Pow2(1) == 2 && Pow2(2) == 4 && Pow2(3) == 8;
  }

  lemma WordIsPow2()
    ensures Pow2(64) == WORD
  {
    hide Pow2;
    SmallPow2();
    Pow2Doubled(4, 0x10);
    Pow2Doubled(8, 0x100);
    Pow2Doubled(16, 0x1_0000);
    Pow2Doubled(32, 0x1_0000_0000);
  }

  lemma XorFits(fp: nat, b: nat)
    requires fp < WORD && b < 256
    ensures Xor(fp, b) < WORD
  {
    WordIsPow2();
    XorBound(fp, b, 64);
  }

  /** The step loses nothing of the state, and nothing of the byte. */
  lemma StepInjective(fp: nat, b: nat, gp: nat, c: nat)
    requires fp < WORD && gp < WORD && b < 256 && c < 256 && Step(fp, b) == Step(gp, c)
    ensures b == c ==> fp == gp
    ensures fp == gp ==> b == c
  {
    XorFits(fp, b);
    XorFits(gp, c);
    TimesBack(Xor(fp, b));
    TimesBack(Xor(gp, c));
    XorUndoes(fp, b);
    XorUndoes(gp, c);
    XorSwaps(fp, b);
    XorSwaps(gp, c);
    XorUndoes(b, fp);
    XorUndoes(c, gp);
  }

  ghost predicate AllBytes(s: seq<nat>) {
    forall i :: 0 <= i < |s| ==> s[i] < 256
  }

  lemma {:induction false} FoldInjective(fp: nat, gp: nat, bytes: seq<nat>)
    requires fp < WORD && gp < WORD && AllBytes(bytes)
    ensures FoldBytes(fp, bytes) < WORD
    ensures FoldBytes(fp, bytes) == FoldBytes(gp, bytes) ==> fp == gp
    decreases |bytes|
  {
    if bytes != [] {
      var n := |bytes| - 1;
      FoldInjective(fp, gp, bytes[..n]);
      FoldInjective(gp, fp, bytes[..n]);
      hide Xor;
      if FoldBytes(fp, bytes) == FoldBytes(gp, bytes) {
        StepInjective(FoldBytes(fp, bytes[..n]), bytes[n], FoldBytes(gp, bytes[..n]), bytes[n]);
      }
    }
  }

  lemma {:induction false} FoldJoin(fp: nat, a: seq<nat>, b: seq<nat>)
    ensures FoldBytes(fp, a + b) == FoldBytes(FoldBytes(fp, a), b)
    decreases |b|
  {
    if b == [] {
      assert a + b == a;
    } else {
      var n := |b| - 1;
      FoldJoin(fp, a, b[..n]);
      assert (a + b)[..|a + b| - 1] == a + b[..n];
    }
  }

  lemma LittleEndianBytes(v: nat)
    ensures AllBytes(LittleEndian(v))
  {
  }

  /** A word below 256 is its one byte and seven zeros. */
  lemma SmallWord(v: nat)
    requires v < 256
    ensures LittleEndian(v) == [v] + [0, 0, 0, 0, 0, 0, 0]
  {
    ShiftedAway(v, 7);
    assert Shifted(v, 0) == v;
  }

  lemma {:induction false} ShiftedAway(v: nat, k: nat)
    requires v < 256
    ensures forall j :: 1 <= j <= k ==> Shifted(v, j) == 0
    decreases k
  {
    if k > 1 { ShiftedAway(v, k - 1); }
  }

  /** Mixing a word loses nothing of the state. */
  lemma MixInjective(fp: nat, gp: nat, v: nat)
    requires fp < WORD && gp < WORD
    ensures Mix(fp, v) < WORD && (Mix(fp, v) == Mix(gp, v) ==> fp == gp)
  {
    LittleEndianBytes(v);
    FoldInjective(fp, gp, LittleEndian(v));
  }

  /** And nothing of a small word. */
  lemma MixSmall(fp: nat, v: nat, w: nat)
    requires fp < WORD && v < 256 && w < 256 && Mix(fp, v) == Mix(fp, w)
    ensures v == w
  {
    hide Xor;
    var zeros := [0, 0, 0, 0, 0, 0, 0];
    SmallWord(v);
    SmallWord(w);
    FoldJoin(fp, [v], zeros);
    FoldJoin(fp, [w], zeros);
    OneByte(fp, v);
    OneByte(fp, w);
    FoldInjective(fp, fp, [v]);
    FoldInjective(fp, fp, [w]);
    FoldInjective(Step(fp, v), Step(fp, w), zeros);
    StepInjective(fp, v, fp, w);
  }

  lemma OneByte(fp: nat, v: nat)
    ensures FoldBytes(fp, [v]) == Step(fp, v)
  {
    assert [v][..0] == [];
  }

  // ----- hashing a word sequence -----

  function MixAll(fp: nat, words: seq<nat>): nat
    decreases |words|
  {
    if words == [] then fp else Mix(MixAll(fp, words[..|words| - 1]), words[|words| - 1])
  }

  lemma MixAllOne(fp: nat, words: seq<nat>, w: nat)
    ensures MixAll(fp, words + [w]) == Mix(MixAll(fp, words), w)
  {
    hide Mix;
    assert (words + [w])[..|words|] == words;
  }

  lemma {:induction false} MixAllJoin(fp: nat, a: seq<nat>, b: seq<nat>)
    ensures MixAll(fp, a + b) == MixAll(MixAll(fp, a), b)
    decreases |b|
  {
    hide Mix;
    if b == [] {
      assert a + b == a;
    } else {
      var n := |b| - 1;
      MixAllJoin(fp, a, b[..n]);
      assert (a + b)[..|a + b| - 1] == a + b[..n];
    }
  }

  lemma {:induction false} MixAllInjective(fp: nat, gp: nat, words: seq<nat>)
    requires fp < WORD && gp < WORD
    ensures MixAll(fp, words) < WORD && (MixAll(fp, words) == MixAll(gp, words) ==> fp == gp)
    decreases |words|
  {
    hide Mix;
    if words != [] {
      var n := |words| - 1;
      MixAllInjective(fp, gp, words[..n]);
      MixAllInjective(gp, fp, words[..n]);
      MixInjective(MixAll(fp, words[..n]), MixAll(gp, words[..n]), words[n]);
    }
  }

  /** Changing one small word of the sequence to another always changes the hash. */
  lemma OneWordMatters(fp: nat, words: seq<nat>, i: nat, v: nat)
    requires fp < WORD && i < |words| && words[i] < 256 && v < 256 && v != words[i]
    ensures MixAll(fp, words[i := v]) != MixAll(fp, words)
  {
    hide Mix;
    var head, tail := words[..i], words[i + 1..];
    assert words == head + [words[i]] + tail;
    assert words[i := v] == head + [v] + tail;
    MixAllJoin(fp, head + [words[i]], tail);
    MixAllJoin(fp, head + [v], tail);
    MixAllOne(fp, head, words[i]);
    MixAllOne(fp, head, v);
    MixAllInjective(fp, fp, head);
    var h := MixAll(fp, head);
    MixInjective(h, h, words[i]);
    MixInjective(h, h, v);
    MixAllInjective(Mix(h, words[i]), Mix(h, v), tail);
    if Mix(h, words[i]) == Mix(h, v) { MixSmall(h, words[i], v); }
  }

  // ----- the words of a plan -----

  /** The members of caps from c upward, in numeric order. */
  function Members(caps: seq<nat>, c: nat): (r: seq<nat>)
    requires c <= CAPABILITY_COUNT
    ensures forall x :: x in r <==> x in caps && c <= x < CAPABILITY_COUNT
    decreases CAPABILITY_COUNT - c
  {
    if c == CAPABILITY_COUNT then []
    else (if c in caps then [c] else []) + Members(caps, c + 1)
  }

  function SetWords(caps: seq<nat>, tag: nat): seq<nat> {
    [tag, |caps|] + Members(caps, 1)
  }

  function StageWords(d: Descriptor): seq<nat> {
    [d.id, Flag(d.required), Flag(d.skipPreservesHealth), d.phase, d.irreversibleClass]
      + SetWords(d.requirements, 0xA1) + SetWords(d.provided, 0xA2) + SetWords(d.skipped, 0xA3)
  }

  function AllWords(stages: seq<Descriptor>): seq<nat>
    decreases |stages|
  {
    if stages == [] then [] else AllWords(stages[..|stages| - 1]) + StageWords(stages[|stages| - 1])
  }

  function PlanWords(stages: seq<Descriptor>): seq<nat> {
    [VERSION, |stages|] + AllWords(stages)
  }

  lemma {:induction false} MembersMixed(fp: nat, caps: seq<nat>, c: nat)
    requires c <= CAPABILITY_COUNT
    ensures MixMembers(fp, caps, c) == MixAll(fp, Members(caps, c))
    decreases CAPABILITY_COUNT - c
  {
    hide Mix, MixAll;
    if c == CAPABILITY_COUNT {
      NothingMixed(fp);
    } else if c in caps {
      MembersMixed(Mix(fp, c), caps, c + 1);
      OneMixed(fp, c);
      MixAllJoin(fp, [c], Members(caps, c + 1));
    } else {
      MembersMixed(fp, caps, c + 1);
      assert Members(caps, c) == Members(caps, c + 1);
    }
  }

  lemma OneMixed(fp: nat, v: nat)
    ensures MixAll(fp, [v]) == Mix(fp, v)
  {
    hide Mix;
    MixAllOne(fp, [], v);
    assert [] + [v] == [v];
  }

  lemma TwoMixed(fp: nat, v: nat, w: nat)
    ensures MixAll(fp, [v, w]) == Mix(Mix(fp, v), w)
  {
    hide Mix;
    MixAllOne(fp, [], v);
    MixAllOne(fp, [v], w);
    assert [] + [v] == [v] && [v] + [w] == [v, w];
  }

  lemma SetMixed(fp: nat, caps: seq<nat>, tag: nat)
    ensures MixSet(fp, caps, tag) == MixAll(fp, SetWords(caps, tag))
  {
    hide Mix, MixMembers, Members;
    TwoMixed(fp, tag, |caps|);
    MembersMixed(Mix(Mix(fp, tag), |caps|), caps, 1);
    MixAllJoin(fp, [tag, |caps|], Members(caps, 1));
  }

  lemma HeadMixed(fp: nat, a: nat, b: nat, c: nat, d: nat, e: nat)
    ensures MixAll(fp, [a, b, c, d, e]) == Mix(Mix(Mix(Mix(Mix(fp, a), b), c), d), e)
  {
    hide Mix;
    TwoMixed(fp, a, b);
    MixAllOne(fp, [a, b], c);
    MixAllOne(fp, [a, b, c], d);
    MixAllOne(fp, [a, b, c, d], e);
    assert [a, b] + [c] == [a, b, c] && [a, b, c] + [d] == [a, b, c, d] && [a, b, c, d] + [e] == [a, b, c, d, e];
  }

  lemma StageMixed(fp: nat, d: Descriptor)
    ensures MixStage(fp, d) == MixAll(fp, StageWords(d))
  {
    hide Mix, MixSet, SetWords, MixAll;
    var head := [d.id, Flag(d.required), Flag(d.skipPreservesHealth), d.phase, d.irreversibleClass];
    HeadMixed(fp, d.id, Flag(d.required), Flag(d.skipPreservesHealth), d.phase, d.irreversibleClass);
    var h := MixAll(fp, head);
    SetMixed(h, d.requirements, 0xA1);
    SetMixed(MixSet(h, d.requirements, 0xA1), d.provided, 0xA2);
    SetMixed(MixSet(MixSet(h, d.requirements, 0xA1), d.provided, 0xA2), d.skipped, 0xA3);
    MixAllJoin(fp, head, SetWords(d.requirements, 0xA1));
    MixAllJoin(fp, head + SetWords(d.requirements, 0xA1), SetWords(d.provided, 0xA2));
    MixAllJoin(fp, head + SetWords(d.requirements, 0xA1) + SetWords(d.provided, 0xA2), SetWords(d.skipped, 0xA3));
  }

  lemma {:induction false} StagesMixed(fp: nat, stages: seq<Descriptor>)
    ensures MixStages(fp, stages) == MixAll(fp, AllWords(stages))
    decreases |stages|
  {
    hide MixStage, StageWords, MixAll;
    if stages == [] {
      NothingMixed(fp);
    } else {
      var n := |stages| - 1;
      StagesMixed(fp, stages[..n]);
      StageMixed(MixStages(fp, stages[..n]), stages[n]);
      MixAllJoin(fp, AllWords(stages[..n]), StageWords(stages[n]));
    }
  }

  lemma NothingMixed(fp: nat)
    ensures MixAll(fp, []) == fp
  {
  }

  /** The plan's fingerprint is the hash of its words. */
  lemma PlanMixed(stages: seq<Descriptor>)
    ensures PlanHash(stages) == MixAll(OFFSET, PlanWords(stages))
  {
    hide Mix, MixAll, AllWords, MixStages;
    TwoMixed(OFFSET, VERSION, |stages|);
    StagesMixed(Mix(Mix(OFFSET, VERSION), |stages|), stages);
    MixAllJoin(OFFSET, [VERSION, |stages|], AllWords(stages));
  }

  // ----- the words determine the plan -----

  /** As many members as the list is long, if the list is a set of known capabilities. */
  lemma MembersCount(caps: seq<nat>)
    requires Distinct(caps) && AllKnown(caps)
    ensures |Members(caps, 1)| == |caps| && multiset(Members(caps, 1)) == multiset(caps)
  {
    MembersAscend(caps, 1);
    var m := Members(caps, 1);
    forall i | 0 <= i < |caps| ensures caps[i] in m { assert CapabilityIsKnown(caps[i]); }
    forall i | 0 <= i < |m| ensures m[i] in caps {}
    SubsetLength(m, caps);
    SubsetLength(caps, m);
    DistinctCover(m, caps);
  }

  lemma {:induction false} MembersAscend(caps: seq<nat>, c: nat)
    requires c <= CAPABILITY_COUNT
    ensures Distinct(Members(caps, c))
    decreases CAPABILITY_COUNT - c
  {
    if c < CAPABILITY_COUNT {
      MembersAscend(caps, c + 1);
      var rest := Members(caps, c + 1);
      if c in caps {
        assert c !in rest;
        assert Members(caps, c) == [c] + rest;
      } else {
        assert Members(caps, c) == rest;
      }
    }
  }

  /** A distinct list inside another is no longer. */
  lemma {:induction false} SubsetLength(a: seq<nat>, b: seq<nat>)
    requires Distinct(a) && Within(a, b)
    ensures |a| <= |b|
    decreases |a|
  {
    if a != [] {
      var k :| 0 <= k < |b| && b[k] == a[0];
      var rest := Without(b, k);
      forall i | 0 <= i < |a[1..]| ensures a[1..][i] in rest {
        var j :| 0 <= j < |b| && b[j] == a[i + 1];
        assert b[j] == if j < k then rest[j] else rest[j - 1];
      }
      SubsetLength(a[1..], rest);
    }
  }

  ghost predicate CapabilitySet(caps: seq<nat>) {
    Distinct(caps) && AllKnown(caps)
  }

  lemma SetWordsSplit(a: seq<nat>, b: seq<nat>, tag: nat, x: seq<nat>, y: seq<nat>)
    requires CapabilitySet(a) && CapabilitySet(b) && SetWords(a, tag) + x == SetWords(b, tag) + y
    ensures multiset(a) == multiset(b) && x == y
  {
    hide Members;
    MembersCount(a);
    MembersCount(b);
    var v, w := SetWords(a, tag), SetWords(b, tag);
    assert (v + x)[1] == |a| && (w + y)[1] == |b|;
    SameLengthSplit(v, w, x, y);
    assert v[2..] == Members(a, 1) && w[2..] == Members(b, 1);
  }

  lemma SameLengthSplit<T>(v: seq<T>, w: seq<T>, x: seq<T>, y: seq<T>)
    requires |v| == |w| && v + x == w + y
    ensures v == w && x == y
  {
    assert (v + x)[..|v|] == v && (w + y)[..|v|] == w;
    assert (v + x)[|v|..] == x && (w + y)[|v|..] == y;
  }

  function StageHead(d: Descriptor): (s: seq<nat>)
    ensures |s| == 5
  {
    [d.id, Flag(d.required), Flag(d.skipPreservesHealth), d.phase, d.irreversibleClass]
  }

  /** The words of a stage say where they end and which stage it is. */
  lemma StageWordsSplit(a: Descriptor, b: Descriptor, x: seq<nat>, y: seq<nat>)
    requires WellDeclared(a) && WellDeclared(b) && StageWords(a) + x == StageWords(b) + y
    ensures SameStage(a, b) && x == y
  {
    hide SetWords;
    var pa, sa := SetWords(a.provided, 0xA2), SetWords(a.skipped, 0xA3) + x;
    var pb, sb := SetWords(b.provided, 0xA2), SetWords(b.skipped, 0xA3) + y;
    assert StageWords(a) + x == StageHead(a) + (SetWords(a.requirements, 0xA1) + (pa + sa));
    assert StageWords(b) + y == StageHead(b) + (SetWords(b.requirements, 0xA1) + (pb + sb));
    SameLengthSplit(StageHead(a), StageHead(b), SetWords(a.requirements, 0xA1) + (pa + sa),
                    SetWords(b.requirements, 0xA1) + (pb + sb));
    HeadDetermines(a, b);
    SetWordsSplit(a.requirements, b.requirements, 0xA1, pa + sa, pb + sb);
    SetWordsSplit(a.provided, b.provided, 0xA2, sa, sb);
    SetWordsSplit(a.skipped, b.skipped, 0xA3, x, y);
  }

  lemma HeadDetermines(a: Descriptor, b: Descriptor)
    requires StageHead(a) == StageHead(b)
    ensures a.id == b.id && a.required == b.required && a.skipPreservesHealth == b.skipPreservesHealth
    ensures a.phase == b.phase && a.irreversibleClass == b.irreversibleClass
  {
    var v, w := StageHead(a), StageHead(b);
    assert v[0] == w[0] && v[1] == w[1] && v[2] == w[2] && v[3] == w[3] && v[4] == w[4];
  }

  lemma {:induction false} AllWordsFront(stages: seq<Descriptor>)
    requires stages != []
    ensures AllWords(stages) == StageWords(stages[0]) + AllWords(stages[1..])
    decreases |stages|
  {
    hide StageWords, AllWords;
    var n := |stages| - 1;
    AllWordsBack(stages);
    if n == 0 {
      assert stages[..0] == [] && stages[1..] == [];
      NoWords();
    } else {
      AllWordsFront(stages[..n]);
      AllWordsBack(stages[1..]);
      assert stages[..n][1..] == stages[1..][..n - 1];
    }
  }

  lemma NoWords()
    ensures AllWords([]) == []
  {
  }

  lemma AllWordsBack(stages: seq<Descriptor>)
    requires stages != []
    ensures AllWords(stages) == AllWords(stages[..|stages| - 1]) + StageWords(stages[|stages| - 1])
  {
  }

  lemma {:induction false} AllWordsDetermine(a: seq<Descriptor>, b: seq<Descriptor>)
    requires |a| == |b| && AllWords(a) == AllWords(b)
    requires forall k :: 0 <= k < |a| ==> WellDeclared(a[k]) && WellDeclared(b[k])
    ensures forall k :: 0 <= k < |a| ==> SameStage(a[k], b[k])
    decreases |a|
  {
    hide StageWords, SameStage, WellDeclared, AllWords;
    if a != [] {
      AllWordsFront(a);
      AllWordsFront(b);
      StageWordsSplit(a[0], b[0], AllWords(a[1..]), AllWords(b[1..]));
      AllWordsDetermine(a[1..], b[1..]);
      forall k | 0 <= k < |a| ensures SameStage(a[k], b[k]) {
        if k > 0 { assert SameStage(a[1..][k - 1], b[1..][k - 1]); }
      }
    }
  }

  /** What is hashed says everything about the plan but the order inside its capability lists. */
  lemma PlanWordsDetermine(a: seq<Descriptor>, b: seq<Descriptor>)
    requires forall k :: 0 <= k < |a| ==> WellDeclared(a[k])
    requires forall k :: 0 <= k < |b| ==> WellDeclared(b[k])
    ensures PlanWords(a) == PlanWords(b) <==> |a| == |b| && forall k :: 0 <= k < |a| ==> SameStage(a[k], b[k])
  {
    hide AllWords, WellDeclared, SameStage;
    if PlanWords(a) == PlanWords(b) {
      assert PlanWords(a)[1] == |a| && PlanWords(b)[1] == |b|;
      SameLengthSplit([VERSION, |a|], [VERSION, |b|], AllWords(a), AllWords(b));
      AllWordsDetermine(a, b);
    }
    if |a| == |b| && forall k :: 0 <= k < |a| ==> SameStage(a[k], b[k]) { SameWords(a, b); }
  }

  lemma {:induction false} SameWords(a: seq<Descriptor>, b: seq<Descriptor>)
    requires |a| == |b| && forall k :: 0 <= k < |a| ==> SameStage(a[k], b[k])
    ensures AllWords(a) == AllWords(b)
    decreases |a|
  {
    hide StageWords;
    if a != [] {
      var n := |a| - 1;
      SameWords(a[..n], b[..n]);
      SameStageWords(a[n], b[n]);
    }
  }

  lemma SameStageWords(a: Descriptor, b: Descriptor)
    requires SameStage(a, b)
    ensures StageWords(a) == StageWords(b)
  {
    hide Members;
    SameContents(a.requirements, b.requirements);
    SameContents(a.provided, b.provided);
    SameContents(a.skipped, b.skipped);
    SameMembers(a.requirements, b.requirements, 1);
    SameMembers(a.provided, b.provided, 1);
    SameMembers(a.skipped, b.skipped, 1);
  }

  lemma {:induction false} SameMembers(a: seq<nat>, b: seq<nat>, c: nat)
    requires c <= CAPABILITY_COUNT && forall x :: x in a <==> x in b
    ensures Members(a, c) == Members(b, c)
    decreases CAPABILITY_COUNT - c
  {
    if c < CAPABILITY_COUNT { SameMembers(a, b, c + 1); }
  }

  // ----- one altered field -----

  /** The two stages differ in exactly one of id, requiredness, neutrality, phase and class. */
  ghost predicate OneFieldApart(a: Descriptor, b: Descriptor) {
    && b == a.(id := b.id, required := b.required, skipPreservesHealth := b.skipPreservesHealth,
               phase := b.phase, irreversibleClass := b.irreversibleClass)
    && (exists i ::
          0 <= i < 5 && StageHead(a)[i] != StageHead(b)[i] && StageHead(b) == StageHead(a)[i := StageHead(b)[i]])
  }

  ghost predicate SmallFields(d: Descriptor) {
    d.id < 256 && d.phase < 256 && d.irreversibleClass < 256
  }

  lemma StageOneWord(a: Descriptor, b: Descriptor) returns (i: nat, v: nat)
    requires OneFieldApart(a, b) && SmallFields(a) && SmallFields(b)
    ensures i < |StageWords(a)| && StageWords(b) == StageWords(a)[i := v] && v != StageWords(a)[i]
    ensures v < 256 && StageWords(a)[i] < 256
  {
    hide SetWords;
    i :| 0 <= i < 5 && StageHead(a)[i] != StageHead(b)[i] && StageHead(b) == StageHead(a)[i := StageHead(b)[i]];
    v := StageHead(b)[i];
    var rest := SetWords(a.requirements, 0xA1) + SetWords(a.provided, 0xA2) + SetWords(a.skipped, 0xA3);
    assert StageWords(a) == StageHead(a) + rest && StageWords(b) == StageHead(b) + rest;
  }

  lemma {:induction false} AllOneWord(stages: seq<Descriptor>, k: nat, d: Descriptor) returns (i: nat, v: nat)
    requires k < |stages| && OneFieldApart(stages[k], d) && SmallFields(stages[k]) && SmallFields(d)
    ensures var w := AllWords(stages);
      i < |w| && AllWords(stages[k := d]) == w[i := v] && v != w[i] && v < 256 && w[i] < 256
    decreases |stages|
  {
    hide StageWords, OneFieldApart, SmallFields;
    var n := |stages| - 1;
    var head := AllWords(stages[..n]);
    if k == n {
      i, v := StageOneWord(stages[n], d);
      i := |head| + i;
      assert stages[k := d][..n] == stages[..n];
    } else {
      i, v := AllOneWord(stages[..n], k, d);
      assert stages[k := d][..n] == stages[..n][k := d];
    }
  }

  /** Altering one field of one stage of a plan, whatever else it holds, changes its fingerprint. */
  lemma AlteredPlanShows(stages: seq<Descriptor>, k: nat, d: Descriptor)
    requires k < |stages| && OneFieldApart(stages[k], d) && SmallFields(stages[k]) && SmallFields(d)
    ensures PlanHash(stages[k := d]) != PlanHash(stages)
  {
    hide PlanHash, MixAll, AllWords, OneFieldApart, SmallFields;
    var i, v := AllOneWord(stages, k, d);
    PlanMixed(stages);
    PlanMixed(stages[k := d]);
    var words := PlanWords(stages);
    assert PlanWords(stages[k := d]) == words[2 + i := v];
    OneWordMatters(OFFSET, words, 2 + i, v);
  }

  // ----- the words of a record -----

  function ReceiptWords(r: Receipt): seq<nat> {
    [r.stage, r.sequence, r.outcome, StatusCode(r.status)] + SetWords(r.provided, 0xB1)
  }

  function RecordWords(receipts: seq<Receipt>): seq<nat>
    decreases |receipts|
  {
    if receipts == [] then [] else RecordWords(receipts[..|receipts| - 1]) + ReceiptWords(receipts[|receipts| - 1])
  }

  lemma ReceiptMixed(fp: nat, r: Receipt)
    ensures MixReceipt(fp, r) == MixAll(fp, ReceiptWords(r))
  {
    hide Mix, MixSet, SetWords, MixAll;
    var head := [r.stage, r.sequence, r.outcome, StatusCode(r.status)];
    TwoMixed(fp, r.stage, r.sequence);
    MixAllOne(fp, [r.stage, r.sequence], r.outcome);
    MixAllOne(fp, [r.stage, r.sequence, r.outcome], StatusCode(r.status));
    assert [r.stage, r.sequence] + [r.outcome] == [r.stage, r.sequence, r.outcome];
    assert [r.stage, r.sequence, r.outcome] + [StatusCode(r.status)] == head;
    SetMixed(MixAll(fp, head), r.provided, 0xB1);
    MixAllJoin(fp, head, SetWords(r.provided, 0xB1));
  }

  lemma {:induction false} RecordMixed(fp: nat, receipts: seq<Receipt>)
    ensures MixReceipts(fp, receipts) == MixAll(fp, RecordWords(receipts))
    decreases |receipts|
  {
    hide MixReceipt, ReceiptWords, MixAll;
    if receipts == [] {
      NothingMixed(fp);
    } else {
      var n := |receipts| - 1;
      RecordMixed(fp, receipts[..n]);
      ReceiptMixed(MixReceipts(fp, receipts[..n]), receipts[n]);
      MixAllJoin(fp, RecordWords(receipts[..n]), ReceiptWords(receipts[n]));
    }
  }

  /** The record's fingerprint goes on from the plan's over the words of the receipts. */
  lemma RecordHashed(planHash: nat, receipts: seq<Receipt>)
    ensures ReceiptHash(planHash, receipts) ==
      MixAll(planHash, [0xB001ED6E, |receipts|] + RecordWords(receipts))
  {
    hide Mix, MixAll, RecordWords, MixReceipts;
    TwoMixed(planHash, 0xB001ED6E, |receipts|);
    RecordMixed(Mix(Mix(planHash, 0xB001ED6E), |receipts|), receipts);
    MixAllJoin(planHash, [0xB001ED6E, |receipts|], RecordWords(receipts));
  }

  /** The same receipt, up to the order of its capabilities and to its counters. */
  ghost predicate SameReceipt(a: Receipt, b: Receipt) {
    && a.stage == b.stage && a.sequence == b.sequence && a.outcome == b.outcome && a.status == b.status
    && multiset(a.provided) == multiset(b.provided)
  }

  lemma CodesDiffer(a: Status, b: Status)
    requires StatusCode(a) == StatusCode(b)
    ensures a == b
  {
  }

  lemma ReceiptWordsSplit(a: Receipt, b: Receipt, x: seq<nat>, y: seq<nat>)
    requires CapabilitySet(a.provided) && CapabilitySet(b.provided) && ReceiptWords(a) + x == ReceiptWords(b) + y
    ensures SameReceipt(a, b) && x == y
  {
    hide SetWords, StatusCode;
    var v := [a.stage, a.sequence, a.outcome, StatusCode(a.status)];
    var w := [b.stage, b.sequence, b.outcome, StatusCode(b.status)];
    assert ReceiptWords(a) + x == v + (SetWords(a.provided, 0xB1) + x);
    assert ReceiptWords(b) + y == w + (SetWords(b.provided, 0xB1) + y);
    SameLengthSplit(v, w, SetWords(a.provided, 0xB1) + x, SetWords(b.provided, 0xB1) + y);
    assert v[0] == w[0] && v[1] == w[1] && v[2] == w[2] && v[3] == w[3];
    CodesDiffer(a.status, b.status);
    SetWordsSplit(a.provided, b.provided, 0xB1, x, y);
  }

  lemma {:induction false} RecordWordsFront(receipts: seq<Receipt>)
    requires receipts != []
    ensures RecordWords(receipts) == ReceiptWords(receipts[0]) + RecordWords(receipts[1..])
    decreases |receipts|
  {
    hide ReceiptWords, RecordWords;
    var n := |receipts| - 1;
    RecordWordsBack(receipts);
    if n == 0 {
      assert receipts[..0] == [] && receipts[1..] == [];
      NoReceiptWords();
    } else {
      RecordWordsFront(receipts[..n]);
      RecordWordsBack(receipts[1..]);
      assert receipts[..n][1..] == receipts[1..][..n - 1];
    }
  }

  lemma NoReceiptWords()
    ensures RecordWords([]) == []
  {
  }

  lemma RecordWordsBack(receipts: seq<Receipt>)
    requires receipts != []
    ensures RecordWords(receipts) == RecordWords(receipts[..|receipts| - 1]) + ReceiptWords(receipts[|receipts| - 1])
  {
  }

  /** What is hashed says everything about the record but that. */
  lemma {:induction false} RecordWordsDetermine(a: seq<Receipt>, b: seq<Receipt>)
    requires |a| == |b| && RecordWords(a) == RecordWords(b)
    requires forall k :: 0 <= k < |a| ==> CapabilitySet(a[k].provided) && CapabilitySet(b[k].provided)
    ensures forall k :: 0 <= k < |a| ==> SameReceipt(a[k], b[k])
    decreases |a|
  {
    hide ReceiptWords, RecordWords, SameReceipt, CapabilitySet;
    if a != [] {
      RecordWordsFront(a);
      RecordWordsFront(b);
      ReceiptWordsSplit(a[0], b[0], RecordWords(a[1..]), RecordWords(b[1..]));
      RecordWordsDetermine(a[1..], b[1..]);
      forall k | 0 <= k < |a| ensures SameReceipt(a[k], b[k]) {
        if k > 0 { assert SameReceipt(a[1..][k - 1], b[1..][k - 1]); }
      }
    }
  }
}
