/** The world registry of WorldBase.hpp: the table of cell types, the entity
    id counter, and the maps from ids to items and to agents. Grids, random
    numbers and the run loop are not part of this model. */
module World {
  import opened Wrappers
  import opened Position
  import opened Grid
  import opened Entities
  import Decimal

  /** WorldBase::npos, size_t(-1). */
  const NPOS: nat := Decimal.SIZE_MAX

  const UNKNOWN_DESC: string := "This is an invalid cell type and should not be reachable."

  /** The entry every world starts with, at index 0. */
  const UNKNOWN_TYPE: CellType := CellType("Unknown", UNKNOWN_DESC, 0 as char)

  /** The test each Find... helper applies to one entity: an item uses the
      owner-based ItemBase::IsOnGrid, an agent the grid_id field; then the
      position is compared exactly (dist None) or with IsNear. */
  predicate Selected(e: Entity, asItem: bool, pos: GridPosition, dist: Option<int>, onGrid: nat)
    reads e
  {
    (if asItem then e.IsOnGrid(onGrid) else e.EntityIsOnGrid(onGrid)) &&
    (match dist
     case None => SamePosition(e.position, pos)
     case Some(d) => IsNear(e.position, pos, d))
  }

  /** The loop shared by FindItemsAt, FindAgentsAt, FindItemsNear and
      FindAgentsNear; unordered_map iteration order is unspecified, so the
      next key is chosen arbitrarily. Every selected id, once each. */
  method Select(m: map<nat, Entity>, asItem: bool, pos: GridPosition, dist: Option<int>, onGrid: nat)
    returns (ids: seq<nat>)
    ensures forall k :: k in ids <==> k in m && Selected(m[k], asItem, pos, dist, onGrid)
    ensures forall i, j :: 0 <= i < j < |ids| ==> ids[i] != ids[j]
  {
    ids := [];
    var todo := m.Keys;
    while todo != {}
      invariant todo <= m.Keys
      invariant forall k :: k in ids <==> k in m && k !in todo && Selected(m[k], asItem, pos, dist, onGrid)
      invariant forall i, j :: 0 <= i < j < |ids| ==> ids[i] != ids[j]
      decreases |todo|
    {
      var k :| k in todo;
      if Selected(m[k], asItem, pos, dist, onGrid) {
        ids := ids + [k];
      }
      todo := todo - {k};
    }
  }

  /** The loop of GetItemID and GetAgentID: some id whose entity has the
      name, or npos when none has it. */
  method FindByName(m: map<nat, Entity>, name: string) returns (id: nat)
    ensures id == NPOS || (id in m && m[id].name == name)
    ensures (forall k :: k in m ==> m[k].name != name) ==> id == NPOS
    ensures (exists k :: k in m && m[k].name == name) ==> id in m && m[id].name == name
  {
    var todo := m.Keys;
    while todo != {}
      invariant todo <= m.Keys
      invariant forall k :: k in m && k !in todo ==> m[k].name != name
      decreases |todo|
    {
      var k :| k in todo;
      if m[k].name == name {
        return k;
      }
      todo := todo - {k};
    }
    return NPOS;
  }

  /** All fields of a world that its methods may change, taken together. */
  datatype WorldFields = WorldFields(
    typeOptions: seq<CellType>, itemMap: map<nat, Entity>, agentMap: map<nat, Entity>,
    lastEntityId: nat, runOver: bool)

  class WorldBase {
    var typeOptions: seq<CellType>
    var itemMap: map<nat, Entity>
    var agentMap: map<nat, Entity>
    var lastEntityId: nat
    var runOver: bool

    /** Entry 0 of the cell-type table is the reserved "Unknown" type, and
        every map holds its entities under their own ids. */
    predicate Valid()
      reads this
    {
      |typeOptions| >= 1 && typeOptions[0] == UNKNOWN_TYPE &&
      (forall k :: k in itemMap ==> itemMap[k].id == k && itemMap[k].kind == ItemKind) &&
      (forall k :: k in agentMap ==> agentMap[k].id == k && agentMap[k].kind == AgentKind)
    }

    /** The current value of every field. */
    ghost function Snapshot(): WorldFields
      reads this
    {
      WorldFields(typeOptions, itemMap, agentMap, lastEntityId, runOver)
    }

    /** WorldBase(seed): one cell type, "Unknown", no entities. */
    constructor ()
      ensures Valid()
      ensures typeOptions == [UNKNOWN_TYPE]
      ensures itemMap == map[] && agentMap == map[] && lastEntityId == 0 && !runOver
    {
      typeOptions := [UNKNOWN_TYPE];
      itemMap := map[];
      agentMap := map[];
      lastEntityId := 0;
      runOver := false;
    }

    /** NextEntityID: the counter is advanced and its new value returned, so
        ids are handed out as 1, 2, 3, ... */
    method NextEntityID() returns (id: nat)
      modifies this
      ensures id == old(lastEntityId) + 1 && lastEntityId == id && id >= 1
      ensures Snapshot() == old(Snapshot()).(lastEntityId := id)
    {
      lastEntityId := lastEntityId + 1;
      id := lastEntityId;
    }

    /** AddCellType: appends one type and returns its index. */
    method AddCellType(name: string, desc: string, symbol: char) returns (id: nat)
      requires Valid()
      modifies this
      ensures Valid()
      ensures typeOptions == old(typeOptions) + [CellType(name, desc, symbol)]
      ensures id == |old(typeOptions)| && id >= 1 && typeOptions[id] == CellType(name, desc, symbol)
      ensures Snapshot() == old(Snapshot()).(typeOptions := typeOptions)
    {
      typeOptions := typeOptions + [CellType(name, desc, symbol)];
      id := |typeOptions| - 1;
    }

    /** Reset: no entities, the counter back to 0; the cell types stay. */
    method Reset()
      requires Valid()
      modifies this
      ensures Valid()
      ensures itemMap == map[] && agentMap == map[] && lastEntityId == 0 && !runOver
      ensures Snapshot() == old(Snapshot()).(itemMap := map[], agentMap := map[], lastEntityId := 0, runOver := false)
    {
      itemMap := map[];
      agentMap := map[];
      lastEntityId := 0;
      runOver := false;
    }

    function GetNumItems(): (n: nat)
      reads this
      ensures n == |itemMap.Keys|
    {
      |itemMap|
    }

    function GetNumAgents(): (n: nat)
      reads this
      ensures n == |agentMap.Keys|
    {
      |agentMap|
    }

    /** HasItem: in a valid world the item is stored under its own id. */
    function HasItem(id: nat): (b: bool)
      reads this
      ensures b ==> id in itemMap && (Valid() ==> itemMap[id].id == id && itemMap[id].kind == ItemKind)
    {
      id in itemMap
    }

    /** HasAgent: in a valid world the agent is stored under its own id. */
    function HasAgent(id: nat): (b: bool)
      reads this
      ensures b ==> id in agentMap && (Valid() ==> agentMap[id].id == id && agentMap[id].kind == AgentKind)
    {
      id in agentMap
    }

    /** GetItem: the source asserts that the item exists. */
    function GetItem(id: nat): (item: Entity)
      reads this
      requires Valid() && HasItem(id)
      ensures item.id == id && item.kind == ItemKind
    {
      itemMap[id]
    }

    function GetAgent(id: nat): (agent: Entity)
      reads this
      requires Valid() && HasAgent(id)
      ensures agent.id == id && agent.kind == AgentKind
    {
      agentMap[id]
    }

    /** GetItemID: the id of some item with that name, or npos. */
    method GetItemID(name: string) returns (id: nat)
      ensures id == NPOS || (HasItem(id) && itemMap[id].name == name)
      ensures (forall k :: k in itemMap ==> itemMap[k].name != name) ==> id == NPOS
      ensures (exists k :: k in itemMap && itemMap[k].name == name) ==> HasItem(id) && itemMap[id].name == name
    {
      id := FindByName(itemMap, name);
    }

    /** GetAgentID: the id of some agent with that name, or npos. */
    method GetAgentID(name: string) returns (id: nat)
      ensures id == NPOS || (HasAgent(id) && agentMap[id].name == name)
      ensures (forall k :: k in agentMap ==> agentMap[k].name != name) ==> id == NPOS
      ensures (exists k :: k in agentMap && agentMap[k].name == name) ==> HasAgent(id) && agentMap[id].name == name
    {
      id := FindByName(agentMap, name);
    }

    /** AddAgent<AgentBase>(name): a new agent under the next id. */
    method AddAgent(name: string) returns (agent: Entity)
      requires Valid()
      modifies this
      ensures Valid()
      ensures fresh(agent) && agent.kind == AgentKind && agent.name == name
      ensures agent.id == old(lastEntityId) + 1 && lastEntityId == agent.id
      ensures agentMap == old(agentMap)[agent.id := agent] && HasAgent(agent.id)
      ensures Snapshot() == old(Snapshot()).(agentMap := agentMap, lastEntityId := lastEntityId)
    {
      var id := NextEntityID();
      agent := new Entity(AgentKind, id, name);
      agentMap := agentMap[id := agent];
    }

    /** AddItem(item_ptr): the source asserts a non-zero id; an item already
        stored under that id is replaced. */
    method AddItem(item: Entity)
      requires Valid() && item.kind == ItemKind && item.id != 0
      modifies this
      ensures Valid()
      ensures itemMap == old(itemMap)[item.id := item] && HasItem(item.id)
      ensures Snapshot() == old(Snapshot()).(itemMap := itemMap)
    {
      itemMap := itemMap[item.id := item];
    }

    /** AddItem<ItemBase>(name): a new item under the next id. */
    method AddNamedItem(name: string) returns (item: Entity)
      requires Valid()
      modifies this
      ensures Valid()
      ensures fresh(item) && item.kind == ItemKind && item.name == name
      ensures item.id == old(lastEntityId) + 1 && lastEntityId == item.id
      ensures itemMap == old(itemMap)[item.id := item]
      ensures Snapshot() == old(Snapshot()).(itemMap := itemMap, lastEntityId := lastEntityId)
    {
      var id := NextEntityID();
      item := new Entity(ItemKind, id, name);
      AddItem(item);
    }

    /** RemoveAgent(id): only that id is erased (a missing id is ignored). */
    method RemoveAgent(id: nat)
      requires Valid()
      modifies this
      ensures Valid()
      ensures agentMap == old(agentMap) - {id} && !HasAgent(id)
      ensures forall k :: k != id ==> (HasAgent(k) <==> old(HasAgent(k)))
      ensures Snapshot() == old(Snapshot()).(agentMap := agentMap)
    {
      agentMap := agentMap - {id};
    }

    /** RemoveItem(id): only that id is erased (a missing id is ignored). */
    method RemoveItem(id: nat)
      requires Valid()
      modifies this
      ensures Valid()
      ensures itemMap == old(itemMap) - {id} && !HasItem(id)
      ensures forall k :: k != id ==> (HasItem(k) <==> old(HasItem(k)))
      ensures Snapshot() == old(Snapshot()).(itemMap := itemMap)
    {
      itemMap := itemMap - {id};
    }

    /** RemoveAgent(name): the source asserts that the name is not
        "Interface", then erases the id GetAgentID finds (npos when none). */
    method RemoveNamedAgent(name: string)
      requires Valid() && name != "Interface"
      modifies this
      ensures Valid()
      ensures exists id ::
        (id == NPOS || (id in old(agentMap) && old(agentMap)[id].name == name)) && agentMap == old(agentMap) - {id}
      ensures (forall k :: k in old(agentMap) ==> old(agentMap)[k].name != name) ==> agentMap == old(agentMap) - {NPOS}
      ensures Snapshot() == old(Snapshot()).(agentMap := agentMap)
    {
      var id := GetAgentID(name);
      RemoveAgent(id);
    }

    /** RemoveItem(name): erases the id GetItemID finds (npos when none). */
    method RemoveNamedItem(name: string)
      requires Valid()
      modifies this
      ensures Valid()
      ensures exists id ::
        (id == NPOS || (id in old(itemMap) && old(itemMap)[id].name == name)) && itemMap == old(itemMap) - {id}
      ensures (forall k :: k in old(itemMap) ==> old(itemMap)[k].name != name) ==> itemMap == old(itemMap) - {NPOS}
      ensures Snapshot() == old(Snapshot()).(itemMap := itemMap)
    {
      var id := GetItemID(name);
      RemoveItem(id);
    }

    /** AddItemToGrid: the stored item is placed at pos on that grid. */
    method AddItemToGrid(itemId: nat, pos: GridPosition, onGrid: nat)
      requires Valid() && HasItem(itemId)
      modifies itemMap[itemId]
      ensures itemMap[itemId].position == pos && itemMap[itemId].IsOnGrid(onGrid)
      ensures itemMap[itemId].Snapshot() ==
        old(itemMap[itemId].Snapshot()).(position := pos, ownerType := GridOwner, ownerId := onGrid)
    {
      itemMap[itemId].SetPosition(pos, onGrid);
    }

    /** GetCellTypeID: the first index from 1 on whose type has that name,
        or 0 when there is none. */
    method GetCellTypeID(name: string) returns (id: nat)
      ensures id < |typeOptions| || (id == 0 && typeOptions == [])
      ensures id != 0 ==> typeOptions[id].name == name
      ensures forall i :: 1 <= i < |typeOptions| && (id == 0 || i < id) ==> typeOptions[i].name != name
    {
      var i := 1;
      while i < |typeOptions|
        invariant 1 <= i
        invariant forall j :: 1 <= j < i && j < |typeOptions| ==> typeOptions[j].name != name
      {
        if typeOptions[i].name == name {
          return i;
        }
        i := i + 1;
      }
      return 0;
    }

    /** GetCellTypeName: entry 0's name, "Unknown", for an id out of range. */
    function GetCellTypeName(id: nat): (r: string)
      reads this
      requires Valid()
      ensures id < |typeOptions| ==> r == typeOptions[id].name
      ensures id >= |typeOptions| ==> r == "Unknown"
    {
      if id >= |typeOptions| then typeOptions[0].name else typeOptions[id].name
    }

    /** GetCellTypeSymbol: entry 0's symbol, '\0', for an id out of range. */
    function GetCellTypeSymbol(id: nat): (r: char)
      reads this
      requires Valid()
      ensures id < |typeOptions| ==> r == typeOptions[id].symbol
      ensures id >= |typeOptions| ==> r == 0 as char
    {
      if id >= |typeOptions| then typeOptions[0].symbol else typeOptions[id].symbol
    }

    /** FindItemsAt: the ids of the items lying on that grid at exactly pos. */
    method FindItemsAt(pos: GridPosition, onGrid: nat) returns (ids: seq<nat>)
      ensures forall k :: k in ids <==>
        k in itemMap && itemMap[k].IsOnGrid(onGrid) && SamePosition(itemMap[k].position, pos)
    {
      ids := Select(itemMap, true, pos, None, onGrid);
    }

    /** FindAgentsAt: the ids of the agents whose grid_id is that grid and
        whose position is exactly pos. */
    method FindAgentsAt(pos: GridPosition, onGrid: nat) returns (ids: seq<nat>)
      ensures forall k :: k in ids <==>
        k in agentMap && agentMap[k].gridId == onGrid && SamePosition(agentMap[k].position, pos)
    {
      ids := Select(agentMap, false, pos, None, onGrid);
    }

    /** FindItemsNear: the ids of the items on that grid within dist of pos. */
    method FindItemsNear(pos: GridPosition, dist: int, onGrid: nat) returns (ids: seq<nat>)
      ensures forall k :: k in ids <==>
        k in itemMap && itemMap[k].IsOnGrid(onGrid) && IsNear(itemMap[k].position, pos, dist)
    {
      ids := Select(itemMap, true, pos, Some(dist), onGrid);
    }

    /** FindAgentsNear: the ids of the agents on that grid within dist of pos. */
    method FindAgentsNear(pos: GridPosition, dist: int, onGrid: nat) returns (ids: seq<nat>)
      ensures forall k :: k in ids <==>
        k in agentMap && agentMap[k].gridId == onGrid && IsNear(agentMap[k].position, pos, dist)
    {
      ids := Select(agentMap, false, pos, Some(dist), onGrid);
    }
  }
}
