/** Exactly when the relocation of an entry point runs into the assertion of LhRelocateRIPRelativeInstruction (reloc.c)
  * about the distance, which ends the process. */
module AssertedDistance {
  import opened Words
  import opened Udis86
  import opened RipRelocation
  import opened EntryPoint
  import opened EntryPointRelocator
  import opened BranchDecoding
  import opened Bypass
  import opened HookAllocation
  import opened Walk

  /** The iteration neither skips a prefix nor meets a branch that the relocator converts or refuses. */
  predicate Copies(s: Site, p: Progress)
    requires Room(s, p)
  {
    p.off < s.size && s.code[p.off] != ADDRESS_PREFIX && BranchAt(s.code, p.off, p.a16).Other?
  }

  /** The first such iteration from `p` on. */
  ghost function FirstCopied(t: Tables, s: Site, p: Progress): (f: Option<Progress>)
    requires WellFormed(t) && Room(s, p)
    ensures f.Some? ==> Room(s, f.value) && Copies(s, f.value)
    decreases s.size - p.off
  {
    if p.off >= s.size then None
    else if Copies(s, p) then Some(p)
    else
      NextKeeps(t, s, p);
      match Next(t, s, p)
      case Halt(_) => None
      case Continue(q) => FirstCopied(t, s, q)
  }

  /** How far the position in the buffer lies ahead of that in the code. */
  function Lead(p: Progress): (n: int) {
    p.pos - p.off
  }

  /** How far the lead falls below `level` at the copying iterations from `p` on. */
  ghost function Drop(t: Tables, s: Site, p: Progress, level: int): (n: nat)
    requires WellFormed(t) && Room(s, p)
    decreases s.size - p.off
  {
    if p.off >= s.size then 0
    else
      NextKeeps(t, s, p);
      var here := if Copies(s, p) && Lead(p) < level then level - Lead(p) else 0;
      var rest := match Next(t, s, p)
        case Halt(_) => 0
        case Continue(q) => Drop(t, s, q, level);
      if here < rest then rest else here
  }

  /** Room for the rest of the code below `limit`, which is not beyond reach above. */
  predicate Below(s: Site, p: Progress, limit: nat) {
    && p.pos <= limit <= |p.buf| && (p.off < s.size ==> p.pos + 12 * (s.size - p.off) + WINDOW <= limit)
    && s.base + limit < s.entry + TWO_31
  }

  /** Given that the lead `level` is enough, the lowest lead decides. */
  lemma {:induction false} DropDecides(t: Tables, s: Site, p: Progress, level: int, limit: nat)
    requires WellFormed(t) && Room(s, p) && Below(s, p, limit) && s.base + level - s.entry >= -TWO_31
    ensures NeverAsserts(t, s, p) <==> s.base + level - Drop(t, s, p, level) - s.entry >= -TWO_31
    decreases s.size - p.off
  {
    hide Next, BranchAt, WellFormed;
    if p.off < s.size {
      AssertsUnfold(t, s, p);
      NextKeeps(t, s, p);
      if Next(t, s, p).Continue? {
        NextTail(t, s, p, limit);
        DropDecides(t, s, Next(t, s, p).p, level, limit);
      }
    }
  }

  /** Unless the page lies too far above, the relocation gets by its assertion if and only if nothing is copied, or the
    * distance at the first copied instruction fits 32 bits, even after the lead has dropped as it does. */
  lemma {:induction false} NeverAssertsIff(t: Tables, s: Site, p: Progress, limit: nat)
    requires WellFormed(t) && Room(s, p) && Below(s, p, limit)
    ensures var f := FirstCopied(t, s, p);
            NeverAsserts(t, s, p) <==>
              (f.None? || Delta(s, f.value) - Drop(t, s, f.value, Lead(f.value)) >= -TWO_31)
    decreases s.size - p.off
  {
    hide Next, BranchAt, WellFormed;
    if p.off < s.size {
      AssertsUnfold(t, s, p);
      NextKeeps(t, s, p);
      if Copies(s, p) {
        if Delta(s, p) >= -TWO_31 {
          DropDecides(t, s, p, Lead(p), limit);
        }
      } else if Next(t, s, p).Continue? {
        NextTail(t, s, p, limit);
        NeverAssertsIff(t, s, Next(t, s, p).p, limit);
      }
    }
  }

  // ---------- how far the lead drops ----------

  /** Address-size prefixes among the bytes from `lo` on. */
  function Prefixes(code: seq<byte>, lo: nat, hi: nat): (n: nat)
    requires hi <= |code|
    decreases hi - lo
  {
    if lo >= hi then 0 else Prefixes(code, lo + 1, hi) + if code[lo] == ADDRESS_PREFIX then 1 else 0
  }

  lemma {:induction false} PrefixesShrink(code: seq<byte>, lo: nat, mid: nat, hi: nat)
    requires lo <= mid && hi <= |code|
    ensures Prefixes(code, mid, hi) <= Prefixes(code, lo, hi)
    decreases mid - lo
  {
    if lo < mid && lo < hi {
      PrefixesShrink(code, lo + 1, mid, hi);
    }
  }

  /** A converted branch is at most six bytes long and leaves twelve. */
  lemma ConvertedLength(t: Tables, s: Site, p: Progress)
    requires BranchTables(t) && WellFormed(t) && Room(s, p) && p.off < s.size && s.code[p.off] != ADDRESS_PREFIX
    requires BranchAt(s.code, p.off, p.a16).Relative?
    ensures InstrLen(t, s.code, InsnStart(p)) <= 6
  {
    hide UdDecode, Decode, BranchTables, WellFormed;
    var w := Window(s.code, InsnStart(p));
    if p.a16 {
      assert w[0] == s.code[p.off - 1] && w[1] == s.code[p.off];
      PrefixedBranch(t, w, 1);
    } else {
      assert w[0] == s.code[p.off];
      if w[0] == 0xEB {
        ShortBranch(t, w);
      } else {
        NearBranch(t, w);
      }
    }
  }

  /** Only a prefix makes the lead fall. */
  lemma LeadGrows(t: Tables, s: Site, p: Progress, q: Progress)
    requires BranchTables(t) && WellFormed(t) && Room(s, p) && p.off < s.size && Next(t, s, p) == Continue(q)
    ensures Lead(q) >= Lead(p) - if s.code[p.off] == ADDRESS_PREFIX then 1 else 0
    ensures s.code[p.off] == ADDRESS_PREFIX ==> q.off == p.off + 1
  {
    hide UdDecode, Decode, BranchTables, WellFormed, Next, InstrLen, BranchAt;
    if s.code[p.off] == ADDRESS_PREFIX {
      PrefixStep(t, s, p);
    } else {
      Advances(t, s, p, q);
      NextLength(t, s, p);
      if BranchAt(s.code, p.off, p.a16).Relative? {
        ConvertedLength(t, s, p);
      }
    }
  }

  /** The lead drops by no more than one for each prefix. */
  lemma {:induction false} DropBound(t: Tables, s: Site, p: Progress, level: int)
    requires BranchTables(t) && WellFormed(t) && Room(s, p)
    ensures Drop(t, s, p, level) <=
              Prefixes(s.code, p.off, s.size) + if Lead(p) < level then level - Lead(p) else 0
    decreases s.size - p.off
  {
    hide UdDecode, Decode, BranchTables, WellFormed, Next, BranchAt;
    if p.off < s.size {
      NextKeeps(t, s, p);
      if Next(t, s, p).Continue? {
        var q := Next(t, s, p).p;
        LeadGrows(t, s, p, q);
        DropBound(t, s, q, level);
        PrefixesShrink(s.code, p.off + 1, q.off, s.size);
      }
    }
  }

  /** Without an address-size prefix from there on, the distance at the first copied instruction alone decides. */
  lemma FirstDecides(t: Tables, s: Site, p: Progress, limit: nat)
    requires BranchTables(t) && WellFormed(t) && Room(s, p) && Below(s, p, limit)
    requires FirstCopied(t, s, p).Some? && Prefixes(s.code, FirstCopied(t, s, p).value.off, s.size) == 0
    ensures NeverAsserts(t, s, p) <==> Delta(s, FirstCopied(t, s, p).value) >= -TWO_31
  {
    hide BranchTables, WellFormed, NeverAsserts, FirstCopied, Drop, Prefixes, Next;
    var f := FirstCopied(t, s, p).value;
    NeverAssertsIff(t, s, p, limit);
    DropBound(t, s, f, Lead(f));
  }

  // ---------- granted pages ----------

  /** For every page of 4096 bytes that the search can take, and every entry point: the process ends if and only if the
    * entry point is too long, or an instruction of it is copied and lies too far away. */
  lemma GrantedSurvivesIff(t: Tables, alloc: VirtualAlloc, s: Site, minimum: int, maximum: int, index: nat,
                           granularity: nat, image: Image, pageSize: nat)
    requires WellFormed(t) && Fits(image, pageSize) && (s.size < 20 ==> s.size + WINDOW <= |s.code|)
    requires AtDistance(alloc, Around(s.entry, minimum, maximum), index) == Some(s.base) && index % 4096 == 0
    requires RoundsDown(alloc, granularity)
    ensures s.size < 20 ==> Room(s, StartOf(image, pageSize))
    ensures Survives(t, s, image, pageSize) <==>
              && s.size < 20
              && var f := FirstCopied(t, s, StartOf(image, pageSize));
                 f.None? || Delta(s, f.value) - Drop(t, s, f.value, Lead(f.value)) >= -TWO_31
  {
    hide NeverAsserts, WellFormed, RoundsDown, FirstCopied, Drop, BlankPage;
    GrantedInReach(alloc, s.entry, minimum, maximum, index, granularity);
    assert index < REACH ==> index <= 0x7FFFF000;
    if s.size < 20 {
      NeverAssertsIff(t, s, StartOf(image, pageSize), IS_EXECUTED);
    }
  }
}
