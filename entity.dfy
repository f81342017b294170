/** Entities of the game (Entity.hpp, Entity.cpp, ItemBase.hpp,
    AgentBase.hpp). The C++ class hierarchy Entity <- ItemBase and
    Entity <- AgentBase becomes one class whose constant `kind` says which of
    the three it is; the fields of ItemBase and AgentBase are present on
    every entity and are only touched when the kind matches. An assertion of
    the source becomes a precondition; a failed property cast inside the
    agent-state rules becomes an error result. */
module Entities {
  import opened Wrappers
  import opened Position

  datatype EntityKind = PlainEntity | ItemKind | AgentKind

  /** The value of a property: Property<T> for the types the game stores. */
  datatype PropertyValue =
    | PDouble(d: real)
    | PInt(i: int)
    | PChar(c: char)
    | PString(s: string)
    | PPosition(p: GridPosition)
    | PBool(b: bool)

  /** PropertyType of Data.hpp. */
  datatype PropertyType = TDouble | TInt | TChar | TString | TPosition | TBool | TOther

  /** Property<T>::GetType. It has no case for bool, so a bool property
      reports t_other although t_bool exists. */
  function TypeOf(v: PropertyValue): (t: PropertyType)
    ensures t == TOther <==> v.PBool?
  {
    match v
    case PDouble(_) => TDouble
    case PInt(_) => TInt
    case PChar(_) => TChar
    case PString(_) => TString
    case PPosition(_) => TPosition
    case PBool(_) => TOther
  }

  /** Apart from t_other, the reported type identifies the C++ type: two
      values reporting the same type other than t_other have the same type,
      and two values of the same type report the same type. */
  lemma TypeOfIdentifies(v: PropertyValue, w: PropertyValue)
    ensures TypeOf(v) == TypeOf(w) && TypeOf(v) != TOther ==> SameType(v, w)
    ensures SameType(v, w) ==> TypeOf(v) == TypeOf(w)
    ensures SameType(v, w) <==> SameType(w, v)
  {
  }

  /** Whether two values have the same C++ type, so that AsProperty<T> on one
      succeeds for the type of the other. */
  predicate SameType(v: PropertyValue, w: PropertyValue)
  {
    match v
    case PDouble(_) => w.PDouble?
    case PInt(_) => w.PInt?
    case PChar(_) => w.PChar?
    case PString(_) => w.PString?
    case PPosition(_) => w.PPosition?
    case PBool(_) => w.PBool?
  }

  /** ItemBase::OwnerType. */
  datatype OwnerType = NoOwner | GridOwner | ItemOwner | AgentOwner

  /** The agent states of AgentBase.hpp. */
  datatype State = Healthy | TakingDamage | Dying | Deceased

  /** A failed `assert` inside GetProperty: the property is missing, or it
      holds a value of another type than the one asked for. */
  datatype Failure = MissingProperty(name: string) | WrongType(name: string)

  /** The position of a value in a sequence as std::find reports it: the
      first index holding it, or the length when there is none. */
  function Find(s: seq<nat>, x: nat): (k: nat)
    ensures k <= |s| && (k < |s| ==> s[k] == x)
    ensures forall j :: 0 <= j < k ==> s[j] != x
  {
    if s == [] then 0
    else if s[0] == x then 0
    else 1 + Find(s[1..], x)
  }

  /** All fields of an entity that its methods may change, taken together. */
  datatype EntityFields = EntityFields(
    name: string, gridId: nat, position: GridPosition, inventory: seq<nat>,
    properties: map<string, PropertyValue>, ownerType: OwnerType, ownerId: nat,
    actionMap: map<string, nat>, actionResult: int, agentState: State)

  class Entity {
    const kind: EntityKind
    const id: nat
    var name: string
    var gridId: nat
    var position: GridPosition
    var inventory: seq<nat>
    var properties: map<string, PropertyValue>
    // ItemBase
    var ownerType: OwnerType
    var ownerId: nat
    // AgentBase
    var actionMap: map<string, nat>
    var actionResult: int
    var agentState: State

    /** Entity(id, name), ItemBase(id, name) or AgentBase(id, name). */
    constructor (k: EntityKind, entityId: nat, entityName: string)
      ensures kind == k && id == entityId && name == entityName
      ensures gridId == 0 && position == Pos(0, 0) && inventory == [] && properties == map[]
      ensures ownerType == NoOwner && ownerId == 0
      ensures actionMap == map[] && actionResult == 0 && agentState == Healthy
    {
      kind := k;
      id := entityId;
      name := entityName;
      gridId := 0;
      position := Pos(0, 0);
      inventory := [];
      properties := map[];
      ownerType := NoOwner;
      ownerId := 0;
      actionMap := map[];
      actionResult := 0;
      agentState := Healthy;
    }

    /** The current value of every mutable field. */
    ghost function Snapshot(): EntityFields
      reads this
    {
      EntityFields(name, gridId, position, inventory, properties, ownerType, ownerId,
        actionMap, actionResult, agentState)
    }

    // -- Property management --

    /** HasProperty: a missing name reports type t_other. */
    function HasProperty(propName: string): (b: bool)
      reads this
      ensures !b ==> GetPropertyType(propName) == TOther
    {
      propName in properties
    }

    /** GetProperty<T>; the source asserts that the property exists. The
        value is of the type GetPropertyType reports for the name. */
    function GetProperty(propName: string): (v: PropertyValue)
      reads this
      requires HasProperty(propName)
      ensures TypeOf(v) == GetPropertyType(propName)
    {
      properties[propName]
    }

    /** GetPropertyType: the stored value's type, t_other for a missing name. */
    function GetPropertyType(propName: string): (t: PropertyType)
      reads this
      ensures propName !in properties ==> t == TOther
      ensures propName in properties ==> t == TypeOf(properties[propName])
    {
      if propName in properties then TypeOf(properties[propName]) else TOther
    }

    /** SetProperty<T>: overwrites an existing property, which must hold a
        value of the same type, or creates a new one. */
    method SetProperty(propName: string, value: PropertyValue)
      requires propName in properties ==> SameType(properties[propName], value)
      modifies this
      ensures properties == old(properties)[propName := value]
      ensures HasProperty(propName) && GetProperty(propName) == value
      ensures Snapshot() == old(Snapshot()).(properties := old(properties)[propName := value])
    {
      properties := properties[propName := value];
    }

    /** RemoveProperty: that property is gone, the others stay. */
    method RemoveProperty(propName: string)
      modifies this
      ensures properties == old(properties) - {propName}
      ensures !HasProperty(propName)
      ensures forall n :: n != propName ==> (HasProperty(n) <==> old(HasProperty(n)))
      ensures Snapshot() == old(Snapshot()).(properties := old(properties) - {propName})
    {
      properties := properties - {propName};
    }

    // -- Inventory management --

    /** HasItem: whether std::find locates the id in the inventory. */
    function HasItem(itemId: nat): (b: bool)
      reads this
      ensures b <==> itemId in inventory
    {
      Find(inventory, itemId) < |inventory|
    }

    /** AddItem: the source asserts that the id is not held yet, appends it
        and makes this entity the item's owner. The item is the one the world
        stores under that id. */
    method AddItem(item: Entity)
      requires item.kind == ItemKind && !HasItem(item.id)
      modifies this, item
      ensures inventory == old(inventory) + [item.id]
      ensures item.ownerType == OwnerTypeOf(kind) && item.ownerId == id && item.position == Invalid
      ensures HasItem(item.id) && (kind != PlainEntity ==> item.IsOwnedBy(id))
      ensures item != this ==> Snapshot() == old(Snapshot()).(inventory := old(inventory) + [item.id])
      ensures item != this ==>
        item.Snapshot() == old(item.Snapshot()).(ownerType := OwnerTypeOf(kind), ownerId := id, position := Invalid)
      ensures item == this ==> Snapshot() == old(Snapshot()).(inventory := old(inventory) + [item.id],
        ownerType := OwnerTypeOf(kind), ownerId := id, position := Invalid)
    {
      inventory := inventory + [item.id];
      item.SetOwner(this);
    }

    /** RemoveItem: the source asserts that the id is held, erases the
        occurrence std::find locates and makes the item unowned. */
    method RemoveItem(item: Entity)
      requires item.kind == ItemKind && HasItem(item.id)
      modifies this, item
      ensures var k := Find(old(inventory), item.id);
        inventory == old(inventory)[..k] + old(inventory)[k + 1..]
      ensures multiset(inventory) == multiset(old(inventory)) - multiset{item.id}
      ensures item.ownerType == NoOwner && !item.IsOwned() && !item.IsOnAnyGrid()
      ensures item != this ==> Snapshot() == old(Snapshot()).(inventory := inventory)
      ensures item != this ==> item.Snapshot() == old(item.Snapshot()).(ownerType := NoOwner)
      ensures item == this ==> Snapshot() == old(Snapshot()).(inventory := inventory, ownerType := NoOwner)
    {
      var k := Find(inventory, item.id);
      assert inventory == inventory[..k] + [inventory[k]] + inventory[k + 1..];
      inventory := inventory[..k] + inventory[k + 1..];
      item.SetUnowned();
    }

    /** Entity::SetPosition(pos, grid_id): an item is also placed on that grid. */
    method SetPosition(pos: GridPosition, onGrid: nat)
      modifies this
      ensures position == pos
      ensures kind == ItemKind ==> ownerType == GridOwner && ownerId == onGrid && IsOnGrid(onGrid)
      ensures kind != ItemKind ==> ownerType == old(ownerType) && ownerId == old(ownerId)
      ensures kind == ItemKind ==>
        Snapshot() == old(Snapshot()).(position := pos, ownerType := GridOwner, ownerId := onGrid)
      ensures kind != ItemKind ==> Snapshot() == old(Snapshot()).(position := pos)
    {
      position := pos;
      if kind == ItemKind {
        SetGrid(onGrid);
      }
    }

    /** Entity::IsOnGrid(grid_id): compares with the grid_id field. Agents
        use this one; ItemBase hides it with the owner-based IsOnGrid below. */
    predicate EntityIsOnGrid(onGrid: nat) reads this { gridId == onGrid }

    // -- ItemBase ownership --

    predicate IsOnAnyGrid() reads this { ownerType == GridOwner }

    /** ItemBase::IsOnGrid(grid_id). */
    predicate IsOnGrid(onGrid: nat) reads this { ownerType == GridOwner && ownerId == onGrid }

    /** ItemBase::IsOwned: owned by an item or by an agent. */
    predicate IsOwned() reads this { ownerType == ItemOwner || ownerType == AgentOwner }

    /** ItemBase::IsOwnedBy(entity_id): an item owned by an entity is on no
        grid, whatever grid id equals the owner's. */
    function IsOwnedBy(entityId: nat): (b: bool)
      reads this
      ensures b ==> IsOwned() && !IsOnAnyGrid() && !IsOnGrid(entityId)
    {
      IsOwned() && ownerId == entityId
    }

    /** ItemBase::SetOwner: the owner's kind and id are recorded and the
        item's position becomes invalid. */
    method SetOwner(owner: Entity)
      modifies this
      ensures ownerType == OwnerTypeOf(owner.kind) && ownerId == owner.id && position == Invalid
      ensures owner.kind != PlainEntity ==> IsOwnedBy(owner.id) && !IsOnAnyGrid()
      ensures owner.kind == PlainEntity ==> !IsOwned() && !IsOnAnyGrid()
      ensures forall n: nat :: IsOwnedBy(n) <==> owner.kind != PlainEntity && n == owner.id
      ensures Snapshot() == old(Snapshot()).(ownerType := OwnerTypeOf(owner.kind), ownerId := owner.id, position := Invalid)
    {
      ownerType := OwnerTypeOf(owner.kind);
      ownerId := owner.id;
      position := Invalid;
    }

    /** ItemBase::SetGrid: the item lies on that grid and is not owned. */
    method SetGrid(onGrid: nat)
      modifies this
      ensures ownerType == GridOwner && ownerId == onGrid
      ensures IsOnGrid(onGrid) && !IsOwned()
      ensures forall n: nat :: !IsOwnedBy(n)
      ensures Snapshot() == old(Snapshot()).(ownerType := GridOwner, ownerId := onGrid)
    {
      ownerType := GridOwner;
      ownerId := onGrid;
    }

    /** ItemBase::SetUnowned: only the owner type changes. */
    method SetUnowned()
      modifies this
      ensures ownerType == NoOwner && ownerId == old(ownerId)
      ensures !IsOwned() && !IsOnAnyGrid()
      ensures forall n: nat :: !IsOwnedBy(n)
      ensures Snapshot() == old(Snapshot()).(ownerType := NoOwner)
    {
      ownerType := NoOwner;
    }

    // -- AgentBase action management --

    /** HasAction: an unknown name has action id 0. */
    function HasAction(actionName: string): (b: bool)
      reads this
      ensures !b ==> GetActionID(actionName) == 0
    {
      actionName in actionMap
    }

    /** GetActionID: the stored id, 0 ("no action") for an unknown name. */
    function GetActionID(actionName: string): (r: nat)
      reads this
      ensures actionName !in actionMap ==> r == 0
      ensures actionName in actionMap ==> r == actionMap[actionName]
    {
      if actionName in actionMap then actionMap[actionName] else 0
    }

    /** AddAction: the source asserts that the name is new. */
    method AddAction(actionName: string, actionId: nat)
      requires !HasAction(actionName)
      modifies this
      ensures actionMap == old(actionMap)[actionName := actionId]
      ensures HasAction(actionName) && GetActionID(actionName) == actionId
      ensures forall n :: n != actionName ==> GetActionID(n) == old(GetActionID(n))
      ensures Snapshot() == old(Snapshot()).(actionMap := old(actionMap)[actionName := actionId])
    {
      actionMap := actionMap[actionName := actionId];
    }

    /** action_map[name] as SelectAction uses it: the id of the action, where
        an unknown name is first inserted with id 0. */
    method ActionFor(actionName: string) returns (actionId: nat)
      modifies this
      ensures actionId == old(GetActionID(actionName)) && HasAction(actionName)
      ensures actionMap == if actionName in old(actionMap) then old(actionMap) else old(actionMap)[actionName := 0]
      ensures Snapshot() == old(Snapshot()).(actionMap := actionMap)
    {
      if actionName !in actionMap {
        actionMap := actionMap[actionName := 0];
      }
      actionId := actionMap[actionName];
    }

    method SetActionResult(result: int)
      modifies this
      ensures actionResult == result
      ensures Snapshot() == old(Snapshot()).(actionResult := result)
    {
      actionResult := result;
    }
  }

  /** The owner type SetOwner records for an owner of the given kind. */
  function OwnerTypeOf(k: EntityKind): (t: OwnerType)
    ensures t != GridOwner
    ensures t == NoOwner <==> k == PlainEntity
  {
    match k
    case ItemKind => ItemOwner
    case AgentKind => AgentOwner
    case PlainEntity => NoOwner
  }

  // ---------------------------------------------------------------------
  // The health-to-state rules of AgentBase

  /** GetProperty<int>(name): the source asserts presence and type. */
  function IntProperty(props: map<string, PropertyValue>, n: string): (r: Result<int, Failure>)
    ensures r.Ok? <==> n in props && props[n].PInt?
    ensures r.Ok? ==> r.value == props[n].i
  {
    if n !in props then Err(MissingProperty(n))
    else if !props[n].PInt? then Err(WrongType(n))
    else Ok(props[n].i)
  }

  /** GetProperty<bool>(name). */
  function BoolProperty(props: map<string, PropertyValue>, n: string): (r: Result<bool, Failure>)
    ensures r.Ok? <==> n in props && props[n].PBool?
    ensures r.Ok? ==> r.value == props[n].b
  {
    if n !in props then Err(MissingProperty(n))
    else if !props[n].PBool? then Err(WrongType(n))
    else Ok(props[n].b)
  }

  /** The health bands of UpdateAgentState: Healthy above 3 up to the
      maximum, Dying from 1 to 3, Deceased at 0 or below; a health above the
      maximum leaves the state as it was. */
  function HealthState(health: int, maxHealth: int, current: State): State
  {
    if health <= maxHealth && health > 3 then Healthy
    else if health <= 3 && health > 0 then Dying
    else if health <= 0 then Deceased
    else current
  }

  lemma HealthBands(health: int, maxHealth: int, current: State)
    ensures 3 < health <= maxHealth ==> HealthState(health, maxHealth, current) == Healthy
    ensures 0 < health <= 3 ==> HealthState(health, maxHealth, current) == Dying
    ensures health <= 0 ==> HealthState(health, maxHealth, current) == Deceased
    ensures health > maxHealth && health > 3 ==> HealthState(health, maxHealth, current) == current
    ensures HealthState(health, maxHealth, current) == TakingDamage ==> current == TakingDamage
  {
  }

  /** UpdateAgentState on an agent with the given properties and state: the
      state after the call, or the failed assertion. Health is compared with
      Max_Health first, so both must be int properties; a true Taking_Damage
      flag, which must be a bool property, overrides the health bands. */
  function UpdatedState(props: map<string, PropertyValue>, current: State): (r: Result<State, Failure>)
  {
    var afterHealth :=
      if "Health" !in props then Ok(current)
      else match IntProperty(props, "Health")
        case Err(f) => Err(f)
        case Ok(h) =>
          match IntProperty(props, "Max_Health")
          case Err(f) => Err(f)
          case Ok(m) => Ok(HealthState(h, m, current));
    match afterHealth
    case Err(f) => Err(f)
    case Ok(s) =>
      if "Taking_Damage" !in props then Ok(s)
      else match BoolProperty(props, "Taking_Damage")
        case Err(f) => Err(f)
        case Ok(b) => Ok(if b then TakingDamage else s)
  }

  /** Whether UpdateAgentState's property reads all succeed. */
  predicate StateReadable(props: map<string, PropertyValue>)
  {
    ("Health" in props ==> props["Health"].PInt? && "Max_Health" in props && props["Max_Health"].PInt?) &&
    ("Taking_Damage" in props ==> props["Taking_Damage"].PBool?)
  }

  /** UpdateAgentState fails exactly when a read property is missing or
      mistyped; otherwise the Taking_Damage flag wins over the health bands,
      and without health or flag the state is kept. */
  lemma UpdatedStateSpec(props: map<string, PropertyValue>, current: State)
    ensures UpdatedState(props, current).Ok? <==> StateReadable(props)
    ensures StateReadable(props) && "Taking_Damage" in props && props["Taking_Damage"].b ==>
      UpdatedState(props, current).value == TakingDamage
    ensures (StateReadable(props) && "Health" in props &&
      ("Taking_Damage" !in props || !props["Taking_Damage"].b)) ==>
      UpdatedState(props, current).value ==
        HealthState(props["Health"].i, props["Max_Health"].i, current)
    ensures "Health" !in props && "Taking_Damage" !in props ==> UpdatedState(props, current) == Ok(current)
  {
  }

  /** UpdateAgentState(agent): only the agent's state changes. */
  method UpdateAgentState(agent: Entity)
    requires StateReadable(agent.properties)
    modifies agent
    ensures UpdatedState(agent.properties, old(agent.agentState)) == Ok(agent.agentState)
    ensures agent.Snapshot() == old(agent.Snapshot()).(agentState := agent.agentState)
  {
    UpdatedStateSpec(agent.properties, agent.agentState);
    if "Health" in agent.properties {
      var h := agent.properties["Health"].i;
      var m := agent.properties["Max_Health"].i;
      if h <= m && h > 3 {
        agent.agentState := Healthy;
      } else if h <= 3 && h > 0 {
        agent.agentState := Dying;
      } else if h <= 0 {
        agent.agentState := Deceased;
      }
    }
    if "Taking_Damage" in agent.properties {
      if agent.properties["Taking_Damage"].b {
        agent.agentState := TakingDamage;
      }
    }
  }

  /** TakeDamage as written: Health and Taking_Damage are read as int, Health
      is lowered by that amount, then UpdateAgentState reads Taking_Damage as
      bool. The new properties, state, or the failed assertion. */
  function TakeDamageAsWritten(props: map<string, PropertyValue>, current: State): Result<(map<string, PropertyValue>, State), Failure>
  {
    match IntProperty(props, "Health")
    case Err(f) => Err(f)
    case Ok(h) =>
      match IntProperty(props, "Taking_Damage")
      case Err(f) => Err(f)
      case Ok(d) =>
        var props' := props["Health" := PInt(h - d)];
        match UpdatedState(props', current)
        case Err(f) => Err(f)
        case Ok(s) => Ok((props', s))
  }

  /** TakeDamage as written never returns: Taking_Damage cannot be an int
      property for its own read and a bool property for UpdateAgentState. */
  lemma TakeDamageAlwaysFails(props: map<string, PropertyValue>, current: State)
    ensures TakeDamageAsWritten(props, current).Err?
  {
    if IntProperty(props, "Health").Ok? && IntProperty(props, "Taking_Damage").Ok? {
      var h := IntProperty(props, "Health").value;
      var d := IntProperty(props, "Taking_Damage").value;
      var props' := props["Health" := PInt(h - d)];
      assert props'["Taking_Damage"].PInt?;
      UpdatedStateSpec(props', current);
    }
  }

  /** TakeDamage with the damage amount given: Health is lowered by it and
      the state is brought up to date with the new health. */
  method TakeDamage(agent: Entity, amount: int)
    requires StateReadable(agent.properties) && "Health" in agent.properties
    modifies agent
    ensures agent.properties == old(agent.properties)["Health" := PInt(old(agent.properties["Health"].i) - amount)]
    ensures UpdatedState(agent.properties, old(agent.agentState)) == Ok(agent.agentState)
    ensures !("Taking_Damage" in agent.properties && agent.properties["Taking_Damage"].b) ==>
      agent.agentState == HealthState(agent.properties["Health"].i, agent.properties["Max_Health"].i, old(agent.agentState))
    ensures agent.Snapshot() == old(agent.Snapshot()).(properties := agent.properties, agentState := agent.agentState)
  {
    var h := agent.properties["Health"].i;
    agent.SetProperty("Health", PInt(h - amount));
    UpdatedStateSpec(agent.properties, agent.agentState);
    UpdateAgentState(agent);
  }
}
