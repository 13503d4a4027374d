/** LhInstallHook, LhUninstallHook, LhUninstallAllHooks and LhWaitForPendingRemovals on linked hook records
  * (install.c, uninstall.c), proved against the functions of HookLifecycle. */
module HookManager {
  import opened Limits
  import opened Words
  import opened CodeMemory
  import opened RipRelocation
  import opened LocalHook
  import opened HookLifecycle

  type State = HookState<HookTraceInfo?>

  function Record(h: LocalHookInfo): (r: Hook<HookTraceInfo?>)
    reads h
  {
    Hook(h.targetProc, h.targetBackup, h.hookCopy, h.hookProc, h.callback, h.hlsIndex, h.tracking)
  }

  /** What LhInstallHook derives from LhAllocateHook and the distance to the trampoline. */
  function Prepare(allocation: Status, targetProc: nat, trampoline: nat, hookProc: nat, callback: nat)
    : (p: Preparation)
    requires hookProc != 0
    ensures p.Ok()
  {
    if allocation != STATUS_SUCCESS then Refused(allocation)
    else if !FitsLong(trampoline - (targetProc + 5)) then Refused(STATUS_NOT_SUPPORTED)
    else Ready(NearJump(targetProc, trampoline), hookProc, callback)
  }

  /** What the records, arrays and handles stand for, and which objects they are. */
  datatype Model = Model(
    state: State, known: map<nat, LocalHookInfo>, records: set<LocalHookInfo>, handles: set<HookTraceInfo>)

  /** A record as the lists and tables see it, and all of them at one moment; likewise the handles. */
  datatype Cell = Cell(next: LocalHookInfo?, ident: nat, signature: nat, hook: Hook<HookTraceInfo?>)
  type Cells = map<LocalHookInfo, Cell>
  type Links = map<HookTraceInfo, LocalHookInfo?>

  ghost function CellOf(h: LocalHookInfo): (c: Cell)
    reads h
  {
    Cell(h.next, h.hlsIdent, h.signature, Record(h))
  }

  ghost function CellsOf(records: set<LocalHookInfo>): (c: Cells)
    reads records
  {
    map h | h in records :: CellOf(h)
  }

  ghost function LinksOf(handles: set<HookTraceInfo>): (l: Links)
    reads handles
  {
    map h | h in handles :: h.link
  }

  /** The records of a list point to one another in order, the last one to nothing. */
  ghost predicate Chained(m: Model, cells: Cells, first: LocalHookInfo?, chain: seq<nat>) {
    && (forall ident | ident in chain :: ident in m.known && m.known[ident] in cells)
    && (if chain == [] then first == null
        else first == m.known[chain[0]] && cells[m.known[chain[|chain| - 1]]].next == null)
    && forall i, j | 0 <= i < |chain| && 0 <= j < |chain| && j == i + 1 ::
         cells[m.known[chain[i]]].next == m.known[chain[j]]
  }

  /** Every allocated record is known by its ident and holds what the state says. */
  ghost predicate RecordsOk(m: Model, cells: Cells) {
    && (forall ident :: ident in m.known <==> ident in m.state.hooks)
    && (forall ident | ident in m.known && ident in m.state.hooks ::
          && m.known[ident] in m.records && m.known[ident] in cells
          && cells[m.known[ident]].ident == ident && cells[m.known[ident]].signature == LOCAL_HOOK_SIGNATURE
          && cells[m.known[ident]].hook == m.state.hooks[ident])
  }

  /** The handles that are set name their records. */
  ghost predicate HandlesOk(m: Model, links: Links) {
    && (forall h | h in m.state.links :: h != null && h in m.handles && m.state.links[h] in m.known)
    && (forall h | h in m.handles ::
          h in links && links[h] ==
            if h in m.state.links && m.state.links[h] in m.known then m.known[m.state.links[h]] else null)
  }

  /** Records, handles and both lists are as the state says. */
  ghost predicate Wired(m: Model, cells: Cells, links: Links, live: LocalHookInfo?, removal: LocalHookInfo?) {
    && cells.Keys == m.records && RecordsOk(m, cells) && HandlesOk(m, links)
    && Chained(m, cells, live, m.state.live) && Chained(m, cells, removal, m.state.removal)
  }

  /** Adding a record in front of the global list and setting its handle. */
  lemma LinkRecords(m: Model, cells: Cells, hook: LocalHookInfo, cell: Cell, n: Model)
    requires RecordsOk(m, cells) && hook !in cells && cell.ident !in m.state.hooks
              && cell.signature == LOCAL_HOOK_SIGNATURE
    requires n.known == m.known[cell.ident := hook] && n.records == m.records + {hook}
    requires n.state.hooks == m.state.hooks[cell.ident := cell.hook]
    ensures RecordsOk(n, cells[hook := cell])
  {
  }

  lemma LinkHandles(m: Model, links: Links, hook: LocalHookInfo, ident: nat, handle: HookTraceInfo, n: Model)
    requires HandlesOk(m, links) && ident !in m.known && n.known == m.known[ident := hook]
    requires n.handles == m.handles + {handle} && n.state.links == m.state.links[handle := ident]
    ensures HandlesOk(n, links[handle := hook])
  {
  }

  lemma LinkChains(m: Model, cells: Cells, hook: LocalHookInfo, cell: Cell, first: LocalHookInfo?, chain: seq<nat>,
                   n: Model)
    requires Chained(m, cells, first, chain) && hook !in cells && cell.ident !in m.known
    requires n.known == m.known[cell.ident := hook]
    ensures Chained(n, cells[hook := cell], first, chain)
    ensures cell.next == first ==> Chained(n, cells[hook := cell], hook, [cell.ident] + chain)
  {
    var longer := [cell.ident] + chain;
    assert forall i | 0 < i < |longer| :: longer[i] == chain[i - 1];
  }

  /** Memory, slots and the counter do not matter for the wiring. */
  lemma Recounted(m: Model, cells: Cells, links: Links, live: LocalHookInfo?, removal: LocalHookInfo?, after: State)
    requires Wired(m, cells, links, live, removal)
    requires after.hooks == m.state.hooks && after.links == m.state.links
    requires after.live == m.state.live && after.removal == m.state.removal
    ensures Wired(m.(state := after), cells, links, live, removal)
  {
  }

  lemma LinkWired(m: Model, cells: Cells, links: Links, live: LocalHookInfo?, removal: LocalHookInfo?,
                  hook: LocalHookInfo, cell: Cell, handle: HookTraceInfo, n: Model)
    requires Wired(m, cells, links, live, removal) && hook !in m.records
    requires cell.ident !in m.state.hooks && cell.signature == LOCAL_HOOK_SIGNATURE && cell.next == live
    requires n.known == m.known[cell.ident := hook] && n.records == m.records + {hook}
              && n.handles == m.handles + {handle}
    requires n.state.hooks == m.state.hooks[cell.ident := cell.hook]
              && n.state.links == m.state.links[handle := cell.ident]
    requires n.state.live == [cell.ident] + m.state.live && n.state.removal == m.state.removal
    ensures Wired(n, cells[hook := cell], links[handle := hook], hook, removal)
  {
    hide HandlesOk, Chained;
    LinkRecords(m, cells, hook, cell, n);
    LinkHandles(m, links, hook, cell.ident, handle, n);
    LinkChains(m, cells, hook, cell, live, m.state.live, n);
    LinkChains(m, cells, hook, cell, removal, m.state.removal, n);
  }

  // ---------- uninstalling ----------

  /** The cell of a hook that was disarmed and put in front of the removal list. */
  function Retired(cell: Cell, removal: LocalHookInfo?): (c: Cell) {
    cell.(next := removal, hook := cell.hook.(proc := 0))
  }

  /** A chain that does not contain the hook is not affected by changes to its cell. */
  lemma OtherChain(m: Model, cells: Cells, first: LocalHookInfo?, chain: seq<nat>, ident: nat, cell: Cell, n: Model)
    requires RecordsOk(m, cells) && Chained(m, cells, first, chain) && ident in m.known && ident !in chain
    requires n.known == m.known
    ensures Chained(n, cells[m.known[ident] := cell], first, chain)
  {
  }

  /** The rest of a chain is a chain. */
  lemma ChainSuffix(m: Model, cells: Cells, first: LocalHookInfo?, chain: seq<nat>, k: nat)
    requires Chained(m, cells, first, chain) && 1 <= k <= |chain|
    ensures Chained(m, cells, cells[m.known[chain[k - 1]]].next, chain[k..])
  {
    var rest := chain[k..];
    assert forall i | 0 <= i < |rest| :: rest[i] == chain[k + i];
  }

  lemma ChainCons(m: Model, cells: Cells, first: LocalHookInfo?, chain: seq<nat>, ident: nat)
    requires Chained(m, cells, first, chain) && ident in m.known && m.known[ident] in cells
    requires cells[m.known[ident]].next == first
    ensures Chained(m, cells, m.known[ident], [ident] + chain)
  {
    var longer := [ident] + chain;
    assert forall i | 0 < i < |longer| :: longer[i] == chain[i - 1];
  }

  /** Disarming a record changes its own entry only. */
  lemma RetireRecords(m: Model, cells: Cells, ident: nat, removal: LocalHookInfo?, n: Model)
    requires RecordsOk(m, cells) && ident in m.known && n.known == m.known && n.records == m.records
    requires n.state.hooks == m.state.hooks[ident := m.state.hooks[ident].(proc := 0)]
    ensures RecordsOk(n, cells[m.known[ident] := Retired(cells[m.known[ident]], removal)])
  {
  }

  lemma RetireHandles(m: Model, links: Links, handle: HookTraceInfo, n: Model)
    requires HandlesOk(m, links) && handle in m.handles && n.known == m.known && n.handles == m.handles
    requires n.state.links == m.state.links - {handle}
    ensures HandlesOk(n, links[handle := null])
  {
  }

  /** LhUninstallHook on the wiring: the search leaves `live` at the hook's successor or where it was. */
  lemma UninstallWired(m: Model, cells: Cells, links: Links, live: LocalHookInfo?, removal: LocalHookInfo?,
                       handle: HookTraceInfo, n: Model)
    requires Wired(m, cells, links, live, removal) && Shape(m.state) && handle in m.state.links
    requires n == m.(state := Uninstall(m.state, handle))
    ensures var ident := m.state.links[handle];
            ident in m.known && m.known[ident] in cells &&
            var hook := m.known[ident];
            Wired(n, cells[hook := Retired(cells[hook], removal)], links[handle := null],
                  if ident in m.state.live then cells[hook].next else live, hook)
  {
    hide InRange, SlotsMatch, Chained;
    var ident := m.state.links[handle];
    assert ident in m.state.hooks && m.state.hooks[ident].armed() && ident !in m.state.removal;
    var hook := m.known[ident];
    var cell := Retired(cells[hook], removal);
    RetireRecords(m, cells, ident, removal, n);
    RetireHandles(m, links, handle, n);
    OtherChain(m, cells, removal, m.state.removal, ident, cell, n);
    ChainCons(n, cells[hook := cell], removal, m.state.removal, ident);
    var k := AfterIsSuffix(m.state.live, ident);
    if ident in m.state.live {
      ChainSuffix(m, cells, live, m.state.live, k);
      assert ident !in m.state.live[k..];
      OtherChain(m, cells, cells[hook].next, m.state.live[k..], ident, cell, n);
    } else {
      OtherChain(m, cells, live, m.state.live, ident, cell, n);
    }
  }

  /** The first hook of the global list. */
  lemma FirstOfLive(m: Model, cells: Cells, links: Links, live: LocalHookInfo?, removal: LocalHookInfo?)
    requires Wired(m, cells, links, live, removal) && Shape(m.state) && m.state.live != []
    ensures var ident := m.state.live[0];
            && ident in m.known && ident in m.state.hooks && m.known[ident] in cells && live == m.known[ident]
            && ident !in m.state.removal && ident !in m.state.live[1..]
            && m.state.hooks[ident].tracking in m.state.links && m.state.links[m.state.hooks[ident].tracking] == ident
            && m.state.hooks[ident].armed()
            && m.state.hooks[ident].tracking != null && m.state.hooks[ident].tracking in m.handles
  {
    hide InRange, SlotsMatch;
    assert m.state.live[0] in m.state.live;
  }

  /** One round of LhUninstallAllHooks on the wiring, `live` being the record that the loop has reached. */
  lemma RetireWired(m: Model, cells: Cells, links: Links, live: LocalHookInfo?, removal: LocalHookInfo?, n: Model)
    requires Wired(m, cells, links, live, removal) && Shape(m.state) && m.state.live != []
    requires m.state.live[0] in m.state.hooks
    requires n == m.(state := Retire(m.state, m.state.live[0]).(live := m.state.live[1..]))
    ensures var hook := m.known[m.state.live[0]];
            && live == hook && hook in cells && m.state.hooks[m.state.live[0]].tracking in m.state.links
            && m.state.hooks[m.state.live[0]].tracking != null
            && Wired(n, cells[hook := Retired(cells[hook], removal)],
                     links[m.state.hooks[m.state.live[0]].tracking := null], cells[hook].next, hook)
  {
    hide InRange, SlotsMatch, ListsShaped, LinksMatch, Chained, RecordsOk, HandlesOk;
    FirstOfLive(m, cells, links, live, removal);
    var ident := m.state.live[0];
    var hook, handle := m.known[ident], m.state.hooks[ident].tracking;
    var cell := Retired(cells[hook], removal);
    RetireRecords(m, cells, ident, removal, n);
    RetireHandles(m, links, handle, n);
    OtherChain(m, cells, removal, m.state.removal, ident, cell, n);
    ChainCons(n, cells[hook := cell], removal, m.state.removal, ident);
    ChainSuffix(m, cells, live, m.state.live, 1);
    OtherChain(m, cells, cells[hook].next, m.state.live[1..], ident, cell, n);
  }

  // ---------- waiting ----------

  /** Popping the first record of the removal list. */
  lemma PopWired(m: Model, cells: Cells, links: Links, live: LocalHookInfo?, removal: LocalHookInfo?, n: Model)
    requires Wired(m, cells, links, live, removal) && m.state.removal != []
    requires n == m.(state := m.state.(removal := m.state.removal[1..]))
    ensures m.state.removal[0] in m.known && removal == m.known[m.state.removal[0]] && removal in cells
    ensures Wired(n, cells, links, live, cells[removal].next)
  {
    ChainSuffix(m, cells, removal, m.state.removal, 1);
  }

  lemma EmptyIff(m: Model, cells: Cells, links: Links, live: LocalHookInfo?, removal: LocalHookInfo?)
    requires Wired(m, cells, links, live, removal)
    ensures removal == null <==> m.state.removal == []
  {
  }

  /** A record that no list and no handle names can be freed. */
  lemma ReleaseWired(m: Model, cells: Cells, links: Links, live: LocalHookInfo?, removal: LocalHookInfo?,
                     ident: nat, n: Model)
    requires Wired(m, cells, links, live, removal) && ident in m.known && ident in m.state.hooks
    requires ident !in m.state.live && ident !in m.state.removal && !m.state.hooks[ident].armed() && Shape(m.state)
    requires n.state == Release(m.state, ident) && n.known == m.known - {ident} && n.handles == m.handles
    requires n.records == m.records - {m.known[ident]}
    ensures Wired(n, cells - {m.known[ident]}, links, live, removal)
  {
    hide InRange, SlotsMatch, ListsShaped, Chained, RecordsOk, HandlesOk;
    ReleaseRecords(m, cells, ident, n);
    ReleaseHandles(m, links, ident, n);
    ReleaseChain(m, cells, live, m.state.live, ident, n);
    ReleaseChain(m, cells, removal, m.state.removal, ident, n);
  }

  lemma ReleaseRecords(m: Model, cells: Cells, ident: nat, n: Model)
    requires RecordsOk(m, cells) && cells.Keys == m.records && ident in m.known && n.known == m.known - {ident}
    requires n.state.hooks == m.state.hooks - {ident} && n.records == m.records - {m.known[ident]}
    ensures RecordsOk(n, cells - {m.known[ident]})
    ensures forall other | other in m.known && other != ident :: m.known[other] != m.known[ident]
  {
    assert forall other | other in m.known :: cells[m.known[other]].ident == other;
  }

  lemma ReleaseHandles(m: Model, links: Links, ident: nat, n: Model)
    requires HandlesOk(m, links) && n.known == m.known - {ident} && n.handles == m.handles
    requires n.state.links == m.state.links && forall h | h in m.state.links :: m.state.links[h] != ident
    ensures HandlesOk(n, links)
  {
  }

  lemma ReleaseChain(m: Model, cells: Cells, first: LocalHookInfo?, chain: seq<nat>, ident: nat, n: Model)
    requires Chained(m, cells, first, chain) && ident in m.known && ident !in chain && n.known == m.known - {ident}
    requires forall other | other in m.known && other != ident :: m.known[other] != m.known[ident]
    ensures Chained(n, cells - {m.known[ident]}, first, chain)
  {
  }

  /** The global state of install.c and the memory of the process, indexed by address. The lists start at sentinel
    * records. */
  class HookManager {
    const memory: array<byte>
    const slotList: array<nat>
    const hookListHead: LocalHookInfo
    const removalListHead: LocalHookInfo
    var uniqueIDCounter: nat
    ghost var model: Model

    ghost predicate ArraysOk()
      reads this, memory, slotList
    {
      && memory as object != slotList as object
      && memory[..] == model.state.mem && slotList[..] == model.state.slots && uniqueIDCounter == model.state.counter
    }

    /** The sentinels are two records of their own. */
    ghost predicate HeadsApart()
      reads this
    {
      && hookListHead != removalListHead && hookListHead !in model.records && removalListHead !in model.records
    }

    ghost predicate Valid()
      reads this, memory, slotList, model.records, model.handles, hookListHead, removalListHead
    {
      && ArraysOk() && HeadsApart()
      && Wired(model, CellsOf(model.records), LinksOf(model.handles), hookListHead.next, removalListHead.next)
      && Shape(model.state) && Numbered(model.state)
    }

    /** The state after loading the library: nothing is hooked. */
    constructor LhCriticalInitialize(memory: array<byte>)
      ensures Valid() && this.memory == memory
      ensures model.state == Initial(memory[..])
    {
      this.memory := memory;
      slotList := new nat[MAX_HOOK_COUNT](_ => 0);
      hookListHead := new LocalHookInfo(0, 0);
      removalListHead := new LocalHookInfo(0, 0);
      uniqueIDCounter := FIRST_IDENT;
      model := Model(Initial(memory[..]), map[], {}, {});
      new;
      assert slotList[..] == seq(MAX_HOOK_COUNT, _ => 0);
      InitialShape<HookTraceInfo?>(memory[..]);
    }

    /** A handle that was never set, or was set by an earlier install. */
    ghost predicate HandleOk(handle: HookTraceInfo)
      reads this, handle
    {
      handle.link != null ==> handle in model.handles
    }

    /** A set handle names an armed record. */
    lemma LinkSet(handle: HookTraceInfo)
      requires Valid() && HandleOk(handle)
      ensures handle.link != null <==> handle in model.state.links
      ensures handle.link != null ==>
                && model.state.links[handle] in model.known && handle.link == model.known[model.state.links[handle]]
                && handle.link in model.records && handle.link.hlsIdent == model.state.links[handle]
                && handle.link.signature == LOCAL_HOOK_SIGNATURE && handle.link.hookProc != 0 && handle in model.handles
    {
      hide ListsShaped, SlotsMatch, InRange;
      var cells, links := CellsOf(model.records), LinksOf(model.handles);
      assert handle in model.handles ==> links[handle] == handle.link;
      if handle in model.state.links {
        var ident := model.state.links[handle];
        assert cells[model.known[ident]] == CellOf(model.known[ident]);
      }
    }

    /** A handle is valid exactly if its install succeeded and nothing has uninstalled the hook since: only then is it
      * among the links, which name armed hooks. */
    method LhIsValidHandle(handle: HookTraceInfo) returns (valid: bool)
      ensures Valid() && HandleOk(handle) ==>
                (valid <==> handle in model.state.links && model.state.links[handle] in model.state.hooks
                            && model.state.hooks[model.state.links[handle]].armed())
      ensures valid <==>
                handle.link != null && handle.link.signature == LOCAL_HOOK_SIGNATURE && handle.link.hookProc != 0
    {
      if Valid() && HandleOk(handle) {
        LinkSet(handle);
      }
      if handle.link == null {
        return false;
      }
      if handle.link.signature != LOCAL_HOOK_SIGNATURE {
        return false;
      }
      if handle.link.hookProc == 0 {
        return false;
      }
      valid := true;
    }

    /** Gives the hook its ident and, if there is one left, its slot. */
    method Enter(hook: LocalHookInfo) returns (exists_: bool)
      modifies this`uniqueIDCounter, slotList, hook`hlsIdent, hook`hlsIndex
      ensures hook.hlsIdent == old(uniqueIDCounter) && uniqueIDCounter == (old(uniqueIDCounter) + 1) % TWO_32
      ensures var i := FreeSlot(old(slotList[..]));
              && (exists_ <==> i < slotList.Length)
              && (exists_ ==> hook.hlsIndex == i && slotList[..] == old(slotList[..])[i := hook.hlsIdent])
              && (!exists_ ==> slotList[..] == old(slotList[..]))
    {
      hook.hlsIdent := uniqueIDCounter;
      uniqueIDCounter := (uniqueIDCounter + 1) % TWO_32;
      exists_, hook.hlsIndex := ClaimSlot(hook.hlsIdent);
    }

    /** Claims the first free cell of GlobalSlotList. */
    method ClaimSlot(ident: nat) returns (exists_: bool, index: nat)
      modifies slotList
      ensures var i := FreeSlot(old(slotList[..]));
              && (exists_ <==> i < slotList.Length)
              && (exists_ ==> index == i && slotList[..] == old(slotList[..])[i := ident])
              && (!exists_ ==> slotList[..] == old(slotList[..]))
    {
      exists_, index := false, 0;
      while index < slotList.Length
        invariant 0 <= index <= slotList.Length && !exists_
        invariant slotList[..] == old(slotList[..])
        invariant forall j | 0 <= j < index :: slotList[j] != 0
      {
        if slotList[index] == 0 {
          assert FreeSlot(slotList[..]) == index;
          slotList[index] := ident;
          exists_ := true;
          return;
        }
        index := index + 1;
      }
    }

    /** Writes the jump over the target and remembers the resulting eight bytes. */
    method PatchTarget(hook: LocalHookInfo, jumper: seq<byte>)
      requires hook.targetProc + PATCH <= memory.Length && |jumper| == 5
      modifies memory, hook`hookCopy
      ensures hook.hookCopy == jumper + Bytes(old(memory[..]), hook.targetProc)[5..]
      ensures memory[..] == Overwrite(old(memory[..]), hook.targetProc, hook.hookCopy)
    {
      hook.hookCopy := jumper + memory[hook.targetProc + 5..hook.targetProc + PATCH];
      assert hook.hookCopy == jumper + Bytes(memory[..], hook.targetProc)[5..];
      RtlCopyMemory(memory, hook.targetProc, hook.hookCopy);
    }

    /** Completes the record: successor, signature and handle. */
    method CompleteRecord(hook: LocalHookInfo, next: LocalHookInfo?, handle: HookTraceInfo)
      modifies hook`next, hook`signature, hook`tracking
      ensures hook.next == next && hook.signature == LOCAL_HOOK_SIGNATURE && hook.tracking == handle
    {
      hook.next := next;
      hook.signature := LOCAL_HOOK_SIGNATURE;
      hook.tracking := handle;
    }

    /** Links the record into the global list and sets the handle. */
    method LinkHook(hook: LocalHookInfo, handle: HookTraceInfo, ghost after: State)
      requires HeadsApart()
      requires Wired(model, CellsOf(model.records), LinksOf(model.handles), hookListHead.next, removalListHead.next)
      requires hook !in model.records && hook != hookListHead && hook != removalListHead
      requires hook.hlsIdent !in model.state.hooks && handle !in model.state.links && handle.link == null
      requires after.live == [hook.hlsIdent] + model.state.live && after.removal == model.state.removal
      requires after.hooks == model.state.hooks[hook.hlsIdent := Record(hook).(tracking := handle)]
      requires after.links == model.state.links[handle := hook.hlsIdent]
      modifies this`model, hookListHead`next, hook`next, hook`signature, hook`tracking, handle
      ensures model.state == after && HeadsApart() && handle.link == hook
      ensures Wired(model, CellsOf(model.records), LinksOf(model.handles), hookListHead.next, removalListHead.next)
    {
      hide Wired;
      ghost var m, cells, links, first := model, CellsOf(model.records), LinksOf(model.handles), hookListHead.next;
      CompleteRecord(hook, hookListHead.next, handle);
      hookListHead.next := hook;
      handle.link := hook;
      model := Model(after, m.known[hook.hlsIdent := hook], m.records + {hook}, m.handles + {handle});
      assert CellsOf(model.records) == cells[hook := CellOf(hook)];
      assert LinksOf(model.handles) == links[handle := hook];
      LinkWired(m, cells, links, first, removalListHead.next, hook, CellOf(hook), handle, model);
    }

    lemma CounterIsNew(s: State)
      requires Numbered(s)
      ensures s.counter !in s.hooks
    {
    }

    /** Patches the target and links the record of a hook that has its number and slot. */
    method PatchAndLink(hook: LocalHookInfo, jumper: seq<byte>, handle: HookTraceInfo, ghost after: State)
      requires HeadsApart() && memory as object != slotList as object && |jumper| == 5
      requires Wired(model, CellsOf(model.records), LinksOf(model.handles), hookListHead.next, removalListHead.next)
      requires hook !in model.records && hook != hookListHead && hook != removalListHead
      requires hook.hlsIdent !in model.state.hooks && handle !in model.state.links && handle.link == null
      requires hook.targetProc + PATCH <= memory.Length && memory[..] == model.state.mem
      requires slotList[..] == after.slots && uniqueIDCounter == after.counter
      requires after.live == [hook.hlsIdent] + model.state.live && after.removal == model.state.removal
      requires after.links == model.state.links[handle := hook.hlsIdent]
      requires var copy := jumper + Bytes(memory[..], hook.targetProc)[5..];
               && after.mem == Overwrite(memory[..], hook.targetProc, copy)
               && after.hooks == model.state.hooks[hook.hlsIdent := Record(hook).(copy := copy, tracking := handle)]
      modifies this`model, memory, hook`hookCopy, hookListHead`next, hook`next, hook`signature, hook`tracking, handle
      ensures hook.Allocated() == old(hook.Allocated()) && handle.link == hook
      ensures ArraysOk() && HeadsApart() && model.state == after
      ensures Wired(model, CellsOf(model.records), LinksOf(model.handles), hookListHead.next, removalListHead.next)
    {
      hide Wired, Overwrite, Bytes;
      ghost var cells, links := CellsOf(model.records), LinksOf(model.handles);
      PatchTarget(hook, jumper);
      assert CellsOf(model.records) == cells && LinksOf(model.handles) == links;
      LinkHook(hook, handle, after);
    }

    /** Numbers the hook, claims a slot, patches the target and links the record. */
    method Register(hook: LocalHookInfo, jumper: seq<byte>, handle: HookTraceInfo) returns (status: Status)
      requires Valid() && uniqueIDCounter + 1 < TWO_32 && handle.link == null && handle !in model.state.links
      requires hook !in model.records && hook != hookListHead && hook != removalListHead
      requires hook.targetProc + PATCH <= memory.Length && |jumper| == 5
      requires hook.targetBackup == Bytes(memory[..], hook.targetProc) && hook.hookProc != 0
      modifies this, memory, slotList, hookListHead, hook, handle
      ensures Valid()
      ensures model.state == Install(old(model.state), handle, old(hook.targetProc),
                                     Ready(jumper, old(hook.hookProc), old(hook.callback)))
      ensures status ==
                InstallStatus(old(model.state), handle, Ready(jumper, old(hook.hookProc), old(hook.callback)))
      ensures hook.Allocated() == old(hook.Allocated())
      ensures handle.link == if status == STATUS_SUCCESS then hook else null
    {
      hide Shape, Numbered, Overwrite, FreeSlot, Wired, Install, Bytes;
      ghost var p := Ready(jumper, hook.hookProc, hook.callback);
      ghost var next := Install(model.state, handle, hook.targetProc, p);
      InstallShape(model.state, handle, hook.targetProc, p);
      InstallFields(model.state, handle, hook.targetProc, p);
      CounterIsNew(model.state);
      ghost var cells, links := CellsOf(model.records), LinksOf(model.handles);
      var exists_ := Enter(hook);
      assert CellsOf(model.records) == cells && LinksOf(model.handles) == links;
      if !exists_ {
        Recounted(model, cells, links, hookListHead.next, removalListHead.next, next);
        model := model.(state := next);
        return STATUS_INSUFFICIENT_RESOURCES;
      }
      PatchAndLink(hook, jumper, handle, next);
      status := STATUS_SUCCESS;
    }

    /** A set handle names the record that the state has for its hook. */
    lemma LinkedRecord(handle: HookTraceInfo)
      requires Valid() && handle in model.state.links && handle.link != null
      ensures var ident := model.state.links[handle];
              && ident in model.state.hooks && model.state.hooks[ident] == Record(handle.link)
              && handle.link.hlsIdent == ident
    {
      hide Shape, Numbered, Chained;
      var cells, links := CellsOf(model.records), LinksOf(model.handles);
      var ident := model.state.links[handle];
      assert links[handle] == handle.link == model.known[ident];
      assert cells[model.known[ident]] == CellOf(model.known[ident]);
    }

    /** The part of LhInstallHook behind LhAllocateHook: the jump to the trampoline, if it reaches, and the
      * registration. */
    method InstallAllocated(hook: LocalHookInfo, handle: HookTraceInfo) returns (status: Status)
      requires Valid() && uniqueIDCounter + 1 < TWO_32 && handle.link == null && handle !in model.state.links
      requires hook !in model.records && hook != hookListHead && hook != removalListHead
      requires hook.targetProc + PATCH <= memory.Length
      requires hook.targetBackup == Bytes(memory[..], hook.targetProc) && hook.hookProc != 0
      modifies this, memory, slotList, hookListHead, hook, handle
      ensures Valid()
      ensures var p := Prepare(STATUS_SUCCESS, old(hook.targetProc), old(hook.trampoline), old(hook.hookProc),
                               old(hook.callback));
              && model.state == Install(old(model.state), handle, old(hook.targetProc), p)
              && status == InstallStatus(old(model.state), handle, p)
      ensures hook.Allocated() == old(hook.Allocated())
      ensures handle.link == if status == STATUS_SUCCESS then hook else null
      ensures status == STATUS_SUCCESS ==>
                && hook.hlsIdent == old(model.state.counter) && hook.hlsIdent in model.state.hooks
                && model.state.hooks[hook.hlsIdent] == Record(hook)
    {
      hide Valid, Shape, Numbered, ToLE, Overwrite, FreeSlot;
      var relAddr := hook.trampoline - (hook.targetProc + 5);
      if !FitsLong(relAddr) {
        return STATUS_NOT_SUPPORTED;
      }
      var jumper := [0xE9] + ToLE(Unsigned32(relAddr), 4);
      status := Register(hook, jumper, handle);
      if status == STATUS_SUCCESS {
        LinkedRecord(handle);
      }
    }

    /** Walks the global list for the hook. Prev stays at the list head, so that finding the hook makes its successor
      * the first record. */
    method Unlink(hook: LocalHookInfo)
      requires Valid() && hook in model.records && hook.hlsIdent in model.known && model.known[hook.hlsIdent] == hook
      modifies hookListHead`next
      ensures hookListHead.next == if hook.hlsIdent in model.state.live then hook.next else old(hookListHead.next)
    {
      hide Shape, HandlesOk;
      ghost var live, cells := model.state.live, CellsOf(model.records);
      var list, prev := hookListHead.next, hookListHead;
      ghost var i := 0;
      while list != null
        invariant 0 <= i <= |live| && prev == hookListHead && hookListHead.next == old(hookListHead.next)
        invariant list == if i < |live| then model.known[live[i]] else null
        invariant forall j | 0 <= j < i :: live[j] != hook.hlsIdent
        decreases |live| - i
      {
        ghost var ident := live[i];
        assert cells[model.known[ident]] == CellOf(model.known[ident]);
        if list == hook {
          prev.next := hook.next;
          return;
        }
        list := list.next;
        i := i + 1;
      }
    }

    /** Clears the handle, disarms the hook and puts it in front of the removal list. */
    method Disarm(hook: LocalHookInfo, handle: HookTraceInfo, valid: bool,
                  ghost records: set<LocalHookInfo>, ghost handles: set<HookTraceInfo>)
      requires valid && hook in records && removalListHead !in records && handle in handles
      modifies hook`hookProc, hook`next, removalListHead`next, handle
      ensures removalListHead.next == hook
      ensures CellsOf(records) == old(CellsOf(records))[hook := Retired(old(CellOf(hook)), old(removalListHead.next))]
      ensures LinksOf(handles) == old(LinksOf(handles))[handle := null]
    {
      if valid {
        handle.link := null;
      }
      hook.hookProc := 0;
      hook.next := removalListHead.next;
      removalListHead.next := hook;
    }

    /** Disarms a hook; `live` is where the global list goes on without it. */
    method Retreat(hook: LocalHookInfo, handle: HookTraceInfo, valid: bool, ghost live: LocalHookInfo?, ghost n: Model)
      requires valid && HeadsApart() && hook in model.records && handle in model.handles
      requires n.records == model.records && n.handles == model.handles
      requires var cells, links := CellsOf(model.records), LinksOf(model.handles);
               Wired(n, cells[hook := Retired(cells[hook], removalListHead.next)], links[handle := null], live, hook)
      modifies this`model, hook`hookProc, hook`next, removalListHead`next, handle
      ensures model == n && HeadsApart()
      ensures Wired(n, CellsOf(n.records), LinksOf(n.handles), live, removalListHead.next)
    {
      hide Wired;
      Disarm(hook, handle, valid, model.records, model.handles);
      model := n;
    }

    method LhUninstallHook(handle: HookTraceInfo) returns (status: Status)
      requires Valid() && HandleOk(handle)
      modifies this`model, model.records, handle, hookListHead`next, removalListHead`next
      ensures Valid() && model.state == Uninstall(old(model.state), handle) && status == STATUS_SUCCESS
    {
      hide Shape, Numbered, Wired;
      LinkSet(handle);
      UninstallShape(model.state, handle);
      status := STATUS_SUCCESS;
      var valid := LhIsValidHandle(handle);
      if handle.link == null || !valid {
        return;
      }
      var hook := handle.link;
      ghost var m, cells, links, live, removal :=
        model, CellsOf(model.records), LinksOf(model.handles), hookListHead.next, removalListHead.next;
      ghost var n := m.(state := Uninstall(m.state, handle));
      UninstallWired(m, cells, links, live, removal, handle, n);
      ghost var ident := m.state.links[handle];
      assert hook == m.known[ident] && cells[hook] == CellOf(hook);
      Unlink(hook);
      ghost var first := hookListHead.next;
      assert first == if ident in m.state.live then cells[hook].next else live;
      assert CellsOf(m.records) == cells && LinksOf(m.handles) == links;
      Retreat(hook, handle, valid, first, n);
    }

    /** The records and pointers that one round of LhUninstallAllHooks starts from. */
    lemma AtRecord(list: LocalHookInfo)
      requires HeadsApart() && Shape(model.state)
      requires Wired(model, CellsOf(model.records), LinksOf(model.handles), list, removalListHead.next)
      ensures model.state.live != [] && model.state.live[0] in model.state.hooks
      ensures list in model.records && list.tracking != null && list.tracking in model.handles
      ensures list.tracking.link == list && list.signature == LOCAL_HOOK_SIGNATURE && list.hookProc != 0
      ensures list.tracking == model.state.hooks[model.state.live[0]].tracking
                && list == model.known[model.state.live[0]]
    {
      hide InRange, SlotsMatch;
      var ident := model.state.live[0];
      assert ident in model.state.live;
      var cells, links := CellsOf(model.records), LinksOf(model.handles);
      assert cells[list] == CellOf(list);
      assert list.tracking in model.handles ==> links[list.tracking] == list.tracking.link;
    }

    /** The global list during LhUninstallAllHooks, which has got to `list`. */
    ghost predicate Uninstalling(list: LocalHookInfo?)
      reads this, memory, slotList, model.records, model.handles, hookListHead, removalListHead
    {
      && ArraysOk() && HeadsApart()
      && Wired(model, CellsOf(model.records), LinksOf(model.handles), list, removalListHead.next)
      && Shape(model.state) && Numbered(model.state)
    }

    /** One round: the record leaves the global list for the removal list. */
    method UninstallFirst(list: LocalHookInfo) returns (next: LocalHookInfo?)
      requires Uninstalling(list)
      modifies this`model, model.records, model.handles, removalListHead`next
      ensures Uninstalling(next) && old(model.state.live) != [] && old(model.state.live)[0] in old(model.state.hooks)
      ensures model == old(model).(state := Retire(old(model.state), old(model.state.live)[0])
                                            .(live := old(model.state.live)[1..]))
    {
      hide Shape, Numbered, Wired, Retire;
      AtRecord(list);
      RetireShape(model.state);
      ghost var m, cells, links := model, CellsOf(model.records), LinksOf(model.handles);
      ghost var n := m.(state := Retire(m.state, m.state.live[0]).(live := m.state.live[1..]));
      RetireWired(m, cells, links, list, removalListHead.next, n);
      RetireKeeps(m.state);
      assert cells[list] == CellOf(list);
      next := list.next;
      var valid := LhIsValidHandle(list.tracking);
      Retreat(list, list.tracking, valid, next, n);
    }

    lemma RetireKeeps(s: State)
      requires s.live != [] && s.live[0] in s.hooks
      ensures var r := Retire(s, s.live[0]).(live := s.live[1..]);
              r.mem == s.mem && r.slots == s.slots && r.counter == s.counter
    {
    }

    lemma LiveAllocated(s: State)
      requires Shape(s)
      ensures forall ident | ident in s.live :: ident in s.hooks
    {
    }

    lemma NothingLeft()
      requires Uninstalling(null)
      ensures model.state.live == []
    {
    }

    method LhUninstallAllHooks() returns (status: Status)
      requires Valid()
      modifies this`model, model.records, model.handles, hookListHead`next, removalListHead`next
      ensures Valid() && model.state == UninstallAll(old(model.state)) && status == STATUS_SUCCESS
    {
      hide Shape, Numbered, Wired, Retire;
      LiveAllocated(model.state);
      var list := hookListHead.next;
      while list != null
        invariant Uninstalling(list) && model.records == old(model.records) && model.handles == old(model.handles)
        invariant forall ident | ident in model.state.live :: ident in model.state.hooks
        invariant UninstallAll(model.state) == UninstallAll(old(model.state))
        decreases |model.state.live|
      {
        list := UninstallFirst(list);
        LiveAllocated(model.state);
      }
      NothingLeft();
      hookListHead.next := null;
      status := STATUS_SUCCESS;
    }

    /** Pops the first record of the removal list. */
    method PopRemoval() returns (hook: LocalHookInfo?)
      requires Valid()
      modifies this`model, removalListHead`next
      ensures hook == null <==> old(model.state.removal) == []
      ensures hook == null ==> model == old(model)
      ensures hook != null ==>
                && model == old(model).(state := old(model.state).(removal := old(model.state.removal)[1..]))
                && old(model.state.removal)[0] in model.known && hook == model.known[old(model.state.removal)[0]]
      ensures ArraysOk() && HeadsApart()
      ensures Wired(model, CellsOf(model.records), LinksOf(model.handles), hookListHead.next, removalListHead.next)
    {
      hide Shape, Numbered, Wired;
      hook := removalListHead.next;
      EmptyIff(model, CellsOf(model.records), LinksOf(model.handles), hookListHead.next, hook);
      if hook != null {
        ghost var m, cells, links := model, CellsOf(model.records), LinksOf(model.handles);
        ghost var n := m.(state := m.state.(removal := m.state.removal[1..]));
        PopWired(m, cells, links, hookListHead.next, hook, n);
        assert cells[hook] == CellOf(hook);
        removalListHead.next := hook.next;
        model := n;
      }
    }

    /** The record agrees with the state. */
    lemma RecordMatches(ident: nat)
      requires Wired(model, CellsOf(model.records), LinksOf(model.handles), hookListHead.next, removalListHead.next)
      requires ident in model.known
      ensures ident in model.state.hooks && model.known[ident] in model.records
      ensures model.known[ident].hlsIdent == ident && Record(model.known[ident]) == model.state.hooks[ident]
    {
      var cells := CellsOf(model.records);
      assert cells[model.known[ident]] == CellOf(model.known[ident]);
    }

    /** Frees slot and record of a hook that was popped. */
    method Free(hook: LocalHookInfo)
      requires Valid() && hook.hlsIdent in model.known && model.known[hook.hlsIdent] == hook
      requires hook.hlsIdent in model.state.hooks && !model.state.hooks[hook.hlsIdent].armed()
      requires hook.hlsIdent !in model.state.removal && hook.hlsIdent !in model.state.live
      modifies this`model, slotList
      ensures Valid() && model.state == Release(old(model.state), hook.hlsIdent)
      ensures model.records == old(model.records) - {hook} && model.handles == old(model.handles)
    {
      hide InRange, ListsShaped, LinksMatch, Wired;
      RecordMatches(hook.hlsIdent);
      ReleaseShape(model.state, hook.hlsIdent);
      ghost var m := model;
      ghost var n := Model(Release(m.state, hook.hlsIdent), m.known - {hook.hlsIdent}, m.records - {hook}, m.handles);
      ReleaseWired(m, CellsOf(m.records), LinksOf(m.handles), hookListHead.next, removalListHead.next, hook.hlsIdent,
                   n);
      if slotList[hook.hlsIndex] == hook.hlsIdent {
        slotList[hook.hlsIndex] := 0;
      }
      model := n;
      assert CellsOf(n.records) == CellsOf(m.records) - {hook};
    }

    /** Waits until no thread is inside the handler and frees the hook, or gives up. */
    method WaitAndFree(hook: LocalHookInfo, executing: Executing, timeout0: int, sleeps0: nat, timedOut0: bool)
      returns (timeout: int, sleeps: nat, timedOut: bool)
      requires Valid() && hook.hlsIdent in model.known && model.known[hook.hlsIdent] == hook
      requires hook.hlsIdent in model.state.hooks && !model.state.hooks[hook.hlsIdent].armed()
      requires hook.hlsIdent !in model.state.removal && hook.hlsIdent !in model.state.live
      requires model.state.hooks[hook.hlsIdent].slot < |model.state.slots|
      modifies this`model, slotList
      ensures Valid() && model.records <= old(model.records) && model.handles == old(model.handles)
      ensures Waiting(model.state, timeout, sleeps, timedOut) ==
                WaitFor(Waiting(old(model.state), timeout0, sleeps0, timedOut0), hook.hlsIdent, executing)
    {
      hide Shape, Numbered, Wired, Release;
      timeout, sleeps, timedOut := timeout0, sleeps0, timedOut0;
      ghost var s := model.state;
      while true
        invariant model == old(model) && Valid()
        invariant WaitFor(Waiting(s, timeout, sleeps, timedOut), hook.hlsIdent, executing) ==
                    WaitFor(Waiting(s, timeout0, sleeps0, timedOut0), hook.hlsIdent, executing)
        decreases timeout
      {
        if !executing(hook.hlsIdent, sleeps) {
          Free(hook);
          return;
        }
        if timeout <= 0 {
          timedOut := true;
          return;
        }
        timeout, sleeps := timeout - SLEEP, sleeps + 1;
      }
    }

    /** One turn of the outer loop: pops a hook, restores its target if its bytes are still in place, and waits. */
    method RemovePending(executing: Executing, timeout0: int, sleeps0: nat, timedOut0: bool)
      returns (more: bool, timeout: int, sleeps: nat, timedOut: bool)
      requires Valid()
      modifies this`model, memory, slotList, removalListHead`next
      ensures Valid() && model.records <= old(model.records) && model.handles == old(model.handles)
      ensures more <==> old(model.state.removal) != []
      ensures var w := Waiting(old(model.state), timeout0, sleeps0, timedOut0);
              Waiting(model.state, timeout, sleeps, timedOut) == if more then RemoveOne(w, executing) else w
    {
      hide ListsShaped, SlotsMatch, LinksMatch, Numbered, Wired, WaitFor;
      timeout, sleeps, timedOut := timeout0, sleeps0, timedOut0;
      var hook := PopRemoval();
      more := hook != null;
      if more {
        ghost var before := old(model.state);
        PoppedShape(before);
        RecordMatches(before.removal[0]);
        if hook.hookCopy == memory[hook.targetProc..hook.targetProc + PATCH] {
          RestoreTarget(hook);
          timeout, sleeps, timedOut := WaitAndFree(hook, executing, timeout, sleeps, timedOut);
        }
      }
    }

    /** Writes the backup over the target. */
    method RestoreTarget(hook: LocalHookInfo)
      requires Valid() && hook.hlsIdent in model.known && model.known[hook.hlsIdent] == hook
      modifies this`model, memory
      ensures Valid() && hook.hlsIdent in old(model.state).hooks
      ensures |old(model.state).hooks[hook.hlsIdent].backup| == PATCH
      ensures old(model.state).hooks[hook.hlsIdent].target + PATCH <= |old(model.state).mem|
      ensures model == old(model).(state := Restore(old(model.state), hook.hlsIdent))
    {
      hide ListsShaped, SlotsMatch, LinksMatch, Numbered, Wired;
      RecordMatches(hook.hlsIdent);
      RestoreShape(model.state, hook.hlsIdent);
      ghost var next := Restore(model.state, hook.hlsIdent);
      Recounted(model, CellsOf(model.records), LinksOf(model.handles), hookListHead.next, removalListHead.next, next);
      RtlCopyMemory(memory, hook.targetProc, hook.targetBackup);
      model := model.(state := next);
    }

    /** LhWaitForPendingRemovals. `executing` says whether a thread is inside a handler after so many sleeps. */
    method LhWaitForPendingRemovals(executing: Executing) returns (status: Status, sleeps: nat)
      requires Valid()
      modifies this`model, memory, slotList, removalListHead`next
      ensures Valid()
      ensures var w := WaitForRemovals(StartWait(old(model.state)), executing);
              && model.state == w.s && sleeps == w.sleeps
              && status == if w.timedOut then STATUS_TIMEOUT else STATUS_SUCCESS
    {
      hide ListsShaped, SlotsMatch, LinksMatch, InRange, Numbered, Wired, RemoveOne;
      var more, timeout, timedOut := true, TIMEOUT, false;
      sleeps := 0;
      while more
        invariant Valid() && (!more ==> model.state.removal == [])
        invariant WaitForRemovals(Waiting(model.state, timeout, sleeps, timedOut), executing) ==
                    WaitForRemovals(StartWait(old(model.state)), executing)
        decreases |model.state.removal|, more
      {
        ghost var w := Waiting(model.state, timeout, sleeps, timedOut);
        if model.state.removal != [] {
          RemoveOneShape(w, executing);
        }
        more, timeout, sleeps, timedOut := RemovePending(executing, timeout, sleeps, timedOut);
      }
      status := if timedOut then STATUS_TIMEOUT else STATUS_SUCCESS;
    }
  }
}
