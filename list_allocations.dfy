/**
 * The allocation list a server owner sees in the panel. Each row is an
 * allocation (an IP:port pair) assigned to the server; the server points at
 * one of them through its `allocation_id`, which makes that row the primary
 * one. The page lets the owner make a row primary, delete (detach) a row that
 * is not primary, and add an allocation while the server is under its
 * allocation limit.
 */
module ListAllocations {

  datatype Option<T> = None | Some(value: T)

  /** One row of the allocations table; `serverId == None` means the allocation is free. */
  datatype Allocation = Allocation(
    ip: string,
    alias: Option<string>,
    port: nat,
    notes: Option<string>,
    serverId: Option<nat>)

  /** The allocations table, by allocation id. */
  type Table = map<nat, Allocation>

  // ---------------------------------------------------------------------
  // The primary allocation

  /**
   * The "Primary" column's state of a row: the row's id is strictly equal to
   * the server's `allocation_id` (a server without one has no primary row).
   */
  predicate IsPrimary(allocationId: Option<nat>, id: nat) {
    allocationId == Some(id)
  }

  /** The ids of the rows listed for server `sid`: the allocations it owns. */
  function OwnedIds(t: Table, sid: nat): set<nat> {
    set id | id in t && t[id].serverId == Some(sid)
  }

  /** `$server->allocations()->count()`. */
  function AllocationCount(t: Table, sid: nat): nat {
    |OwnedIds(t, sid)|
  }

  /** The listed rows whose "Primary" column is on. */
  function PrimaryRows(t: Table, sid: nat, allocationId: Option<nat>): set<nat> {
    set id | id in OwnedIds(t, sid) && IsPrimary(allocationId, id)
  }

  /** At most one row of a server is shown as primary: the one `allocation_id` names, if the server owns it. */
  lemma AtMostOnePrimary(t: Table, sid: nat, allocationId: Option<nat>)
    ensures |PrimaryRows(t, sid, allocationId)| <= 1
    ensures allocationId.Some? && allocationId.value in OwnedIds(t, sid) ==>
              PrimaryRows(t, sid, allocationId) == {allocationId.value}
    ensures allocationId.None? || allocationId.value !in OwnedIds(t, sid) ==>
              PrimaryRows(t, sid, allocationId) == {}
  {
    var rows := PrimaryRows(t, sid, allocationId);
    if allocationId.Some? {
      assert rows <= {allocationId.value};
      if allocationId.value in OwnedIds(t, sid) {
        assert allocationId.value in rows;
        assert rows == {allocationId.value};
      } else {
        assert rows == {};
      }
    } else {
      assert rows == {};
    }
  }

  /** The star icon of the "Primary" column. */
  function PrimaryIcon(state: bool): string {
    if state then "tabler-star-filled" else "tabler-star"
  }

  /** The colour of the "Primary" column. */
  function PrimaryColor(state: bool): string {
    if state then "warning" else "gray"
  }

  /** A row is drawn with the filled star in the warning colour exactly when it is the primary allocation. */
  lemma PrimaryColumnShowsPrimary(allocationId: Option<nat>, id: nat)
    ensures PrimaryIcon(IsPrimary(allocationId, id)) == "tabler-star-filled" <==> allocationId == Some(id)
    ensures PrimaryColor(IsPrimary(allocationId, id)) == "warning" <==> allocationId == Some(id)
  {
  }

  // ---------------------------------------------------------------------
  // Deleting (detaching) an allocation

  /** The "Delete" row action is hidden for the server's primary allocation. */
  predicate DeleteHidden(allocationId: Option<nat>, id: nat) {
    allocationId == Some(id)
  }

  /**
   * The delete action: the row with this id (if there is one) gets its
   * `notes` and `server_id` set to null; nothing else is written.
   */
  function Detach(t: Table, id: nat): Table {
    if id in t then t[id := t[id].(notes := None, serverId := None)] else t
  }

  /** Detaching writes only the target row's `notes` and `server_id`; every other column and row stays. */
  lemma DetachChangesOnlyTarget(t: Table, id: nat)
    ensures Detach(t, id).Keys == t.Keys
    ensures forall other :: other in t && other != id ==> Detach(t, id)[other] == t[other]
    ensures id in t ==>
              var before, after := t[id], Detach(t, id)[id];
              after.ip == before.ip && after.alias == before.alias && after.port == before.port
              && after.notes == None && after.serverId == None
  {
  }

  /** Detaching an allocation twice leaves the table as detaching it once. */
  lemma DetachIdempotent(t: Table, id: nat)
    ensures Detach(Detach(t, id), id) == Detach(t, id)
  {
  }

  /** A detached row belongs to no server any more, and the server owns every other row it owned. */
  lemma DetachOwnedIds(t: Table, sid: nat, id: nat)
    ensures OwnedIds(Detach(t, id), sid) == OwnedIds(t, sid) - {id}
  {
  }

  /** Deleting one of the server's allocations lowers its count by one; deleting any other row leaves it. */
  lemma DetachCount(t: Table, sid: nat, id: nat)
    ensures id in OwnedIds(t, sid) ==> AllocationCount(Detach(t, id), sid) == AllocationCount(t, sid) - 1
    ensures id !in OwnedIds(t, sid) ==> AllocationCount(Detach(t, id), sid) == AllocationCount(t, sid)
  {
    DetachOwnedIds(t, sid, id);
  }

  /** A delete the page offers (the row is not primary) keeps the primary row listed and primary. */
  lemma VisibleDeleteKeepsPrimary(t: Table, sid: nat, allocationId: Option<nat>, id: nat)
    requires !DeleteHidden(allocationId, id)
    ensures PrimaryRows(Detach(t, id), sid, allocationId) == PrimaryRows(t, sid, allocationId)
  {
    DetachOwnedIds(t, sid, id);
  }

  // ---------------------------------------------------------------------
  // The "Add Allocation" header action

  function AddLabel(count: nat, limit: nat): string {
    if count >= limit then "Allocation Limit Reached" else "Add Allocation"
  }

  predicate AddDisabled(count: nat, limit: nat) {
    count >= limit
  }

  function AddColor(count: nat, limit: nat): string {
    if count >= limit then "danger" else "primary"
  }

  /** Label, disabled state and colour agree: all three switch exactly when the count reaches the limit. */
  lemma AddActionAgrees(count: nat, limit: nat)
    ensures AddDisabled(count, limit) <==> count >= limit
    ensures AddLabel(count, limit) == "Allocation Limit Reached" <==> AddDisabled(count, limit)
    ensures AddColor(count, limit) == "danger" <==> AddDisabled(count, limit)
    ensures !AddDisabled(count, limit) ==>
              AddLabel(count, limit) == "Add Allocation" && AddColor(count, limit) == "primary"
  {
  }

  /** A server at its limit can add an allocation again after deleting one of its own. */
  lemma DeleteAtLimitReenablesAdd(t: Table, sid: nat, limit: nat, id: nat)
    requires AllocationCount(t, sid) == limit
    requires id in OwnedIds(t, sid)
    ensures AddDisabled(AllocationCount(t, sid), limit)
    ensures !AddDisabled(AllocationCount(Detach(t, id), sid), limit)
    ensures AddLabel(AllocationCount(Detach(t, id), sid), limit) == "Add Allocation"
  {
    DetachCount(t, sid, id);
  }

  // ---------------------------------------------------------------------
  // The page's state: the tenant server and the allocations table

  /**
   * The server the page is opened for (its id, its allocation limit and its
   * `allocation_id` pointer) together with the allocations table it reads and
   * writes.
   */
  class AllocationPage {
    const serverId: nat
    const allocationLimit: nat
    var allocationId: Option<nat>
    var table: Table

    /** The page's invariant: the primary pointer, when set, names a row the server owns. */
    ghost predicate PrimaryOwned()
      reads this
    {
      allocationId.Some? ==> allocationId.value in OwnedIds(table, serverId)
    }

    constructor (serverId: nat, allocationLimit: nat, allocationId: Option<nat>, table: Table)
      ensures this.serverId == serverId && this.allocationLimit == allocationLimit
      ensures this.allocationId == allocationId && this.table == table
    {
      this.serverId := serverId;
      this.allocationLimit := allocationLimit;
      this.allocationId := allocationId;
      this.table := table;
    }

    /** The rows listed on the page. */
    function Listed(): set<nat>
      reads this
    {
      OwnedIds(table, serverId)
    }

    /** The "Primary" column's action: point the server's `allocation_id` at the clicked row. */
    method MakePrimary(id: nat)
      modifies this`allocationId
      ensures allocationId == Some(id)
      ensures table == old(table)
      ensures id in Listed() ==> PrimaryRows(table, serverId, allocationId) == {id}
      ensures id in Listed() ==> PrimaryOwned()
    {
      allocationId := Some(id);
      AtMostOnePrimary(table, serverId, allocationId);
    }

    /** The "Delete" row action: null the row's `notes` and `server_id`. */
    method Delete(id: nat)
      modifies this`table
      ensures table == Detach(old(table), id)
      ensures allocationId == old(allocationId)
      ensures id in old(Listed()) ==> |Listed()| == |old(Listed())| - 1
      ensures !old(DeleteHidden(allocationId, id)) ==>
                PrimaryRows(table, serverId, allocationId) == old(PrimaryRows(table, serverId, allocationId))
      ensures !old(DeleteHidden(allocationId, id)) && old(PrimaryOwned()) ==> PrimaryOwned()
    {
      DetachCount(table, serverId, id);
      if !DeleteHidden(allocationId, id) {
        VisibleDeleteKeepsPrimary(table, serverId, allocationId, id);
      }
      DetachOwnedIds(table, serverId, id);
      if id in table {
        table := table[id := table[id].(notes := None, serverId := None)];
      }
    }

    /** The header action's label for the current count. */
    function AddAllocationLabel(): (caption: string)
      reads this
      ensures caption == "Allocation Limit Reached" <==> |Listed()| >= allocationLimit
      ensures caption != "Allocation Limit Reached" ==> caption == "Add Allocation"
    {
      AddLabel(AllocationCount(table, serverId), allocationLimit)
    }

    /** Whether the header action is disabled for the current count. */
    function AddAllocationDisabled(): (disabled: bool)
      reads this
      ensures disabled <==> AddAllocationLabel() == "Allocation Limit Reached"
      ensures disabled <==> AddAllocationColor() == "danger"
    {
      AddDisabled(AllocationCount(table, serverId), allocationLimit)
    }

    /** The header action's colour for the current count. */
    function AddAllocationColor(): (color: string)
      reads this
      ensures color == "danger" <==> |Listed()| >= allocationLimit
      ensures color != "danger" ==> color == "primary"
    {
      AddColor(AllocationCount(table, serverId), allocationLimit)
    }
  }
}
