/** A page that LhAllocateMemoryEx takes and from which the jump back does not reach. */
module OutOfReach {
  import opened Words
  import opened Udis86
  import opened RipRelocation
  import opened EntryPoint
  import opened EntryPointRelocator
  import opened BranchDecoding
  import opened Bypass
  import opened HookAllocation
  import opened Miscopied

  const GRANULARITY: nat := 0x10000
  const FAR_ENTRY: nat := 0x1_8000_EFFF
  const LOW_PAGE: nat := 0x1_0000_0000
  const LAST_STEP: nat := 0x7FFFF

  const JUMP: seq<byte> := [0xE9, 0x20, 0, 0, 0]

  /** All addresses but one are taken. */
  function OneFree(): (alloc: VirtualAlloc) {
    a => if a == FAR_ENTRY - LAST_STEP * 4096 then Some(LOW_PAGE) else None
  }

  /** A jump of five bytes as the entry point, and the page in which that address lies. */
  function FarSite(): (s: Site) {
    Site(Padded(JUMP), FAR_ENTRY, 5, LOW_PAGE)
  }

  lemma PageIsNearest()
    ensures RoundsDown(OneFree(), GRANULARITY)
    ensures Nearest(OneFree(), Around(FAR_ENTRY, 0x10000, 0x7FFF_FFFE_FFFF), 4096, Some(LOW_PAGE))
  {
    var r := Around(FAR_ENTRY, 0x10000, 0x7FFF_FFFE_FFFF);
    assert AtDistance(OneFree(), r, LAST_STEP * 4096) == Some(LOW_PAGE);
    assert forall j: nat | j < LAST_STEP :: AtDistance(OneFree(), r, j * 4096).None?;
  }

  lemma JumpBytes(t: Tables)
    requires t == Smallest()
    ensures WellFormed(t) && InstrLen(t, Padded(JUMP), 0) == 5
    ensures BranchAt(Padded(JUMP), 0, false) == Relative(5, 0x20, false)
  {
    hide UdDecode, Decode, BranchTables, WellFormed, Smallest;
    SmallestMeetsFacts();
    TablesWellFormed(t);
    var code := Padded(JUMP);
    NearBranch(t, Window(code, 0));
    assert code[1..5] == [0x20, 0, 0, 0];
    SmallLong(0x20);
  }

  /** The page is granted, the entry point is relocated into it, and then the jump back is out of reach. */
  lemma GrantedOutOfReach(t: Tables, before: seq<byte>, at: nat)
    requires t == Smallest() && at <= IS_EXECUTED && at + 12 * 5 + WINDOW <= |before|
    ensures RoundsDown(OneFree(), GRANULARITY)
    ensures Nearest(OneFree(), Around(FAR_ENTRY, 0x10000, 0x7FFF_FFFE_FFFF), 4096, Some(FarSite().base))
    ensures WellFormed(t) && IsRounded(t, FarSite().code, 5, FarSite().size)
    ensures Room(FarSite(), Progress(0, false, before, at))
    ensures NeverAsserts(t, FarSite(), Progress(0, false, before, at))
    ensures AllocationStatus(t, FarSite(), Progress(0, false, before, at)) == STATUS_NOT_SUPPORTED
  {
    hide UdDecode, Decode, WellFormed, Relocate, Smallest, InstrLen, BranchAt, Absolute, Next, Nearest, RoundsDown;
    PageIsNearest();
    JumpBytes(t);
    var s, p := FarSite(), Progress(0, false, before, at);
    assert Boundary(t, s.code, 5, 5);
    var q := NextConverts(t, s, p, 5, FAR_ENTRY + 0x25);
    RelocateEnds(t, s, q);
    NextKeeps(t, s, p);
    NextUnfolds(t, s, p);
  }

  /** The same page, with a move from memory as the entry point. */
  function FarMove(): (s: Site) {
    Site(Padded(ZERO_DISP), FAR_ENTRY, 6, LOW_PAGE)
  }

  /** The page is granted, and the relocation of the move runs into its assertion, which ends the process. */
  lemma GrantedAsserts(t: Tables, before: seq<byte>, at: nat)
    requires t == Smallest() && at <= IS_EXECUTED && at + 12 * 6 + WINDOW <= |before|
    ensures RoundsDown(OneFree(), GRANULARITY)
    ensures Nearest(OneFree(), Around(FAR_ENTRY, 0x10000, 0x7FFF_FFFE_FFFF), 4096, Some(FarMove().base))
    ensures WellFormed(t) && IsRounded(t, FarMove().code, 5, FarMove().size)
    ensures Room(FarMove(), Progress(0, false, before, at))
    ensures !NeverAsserts(t, FarMove(), Progress(0, false, before, at))
  {
    hide UdDecode, Decode, WellFormed, Relocate, Smallest, InstrLen, BranchAt, Next, Nearest, RoundsDown;
    PageIsNearest();
    ZeroDispBytes(t);
    var s, p := FarMove(), Progress(0, false, before, at);
    assert Boundary(t, s.code, 6, 6);
    assert !Asserted(s, p);
    AssertsUnfold(t, s, p);
  }
}
