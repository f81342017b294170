# A verified model of the CSE 491 (Fall 2023) game framework core

The repository is a course-wide C++ framework for grid worlds in which agents
move, pick up items and fight. This project models its core in Dafny:

- **Entities** (`core/Entity`, `ItemBase`, `AgentBase`): named objects with a
  typed property map. Items have an inventory and an owner. Agents have an
  action map, an action result and a health state.
- **The world** (`core/WorldBase`): the registry of cell types, items and
  agents, the entity-id counter, and the position queries.
- **Grid positions** (`core/GridPosition`): neighbours, Manhattan distance,
  nearness and the "(x,y)" text form.
- **The world grid** (`core/WorldGrid`): a row-major vector of cell-type ids.
  It can be resized, serialised and read back, and written and read as
  symbol text.
- **Agents**:
  - `PacingAgent` walks back and forth.
  - `PathAgent` parses a command string such as "3n 2*e w" into offsets and
    walks them in a cycle.
  - The A* shortest path of the agent library.
  - The wall-distance sensors and the registers of the GP agents.
- **The CGP genotype** (`Agents/GP/CGPGenotype`):
  - the base-64 and decimal encodings it uses;
  - the header of five parameters;
  - the layer-by-layer layout of the functional nodes;
  - connection counting;
  - the export/configure round trip of the header and of the input
    connections.
- **Data collection**: the item-use, agent-interaction and damage collectors,
  and the doubly linked list.
- **The in-class set-cover solver** (`in_class/SetCover/solve.cpp`), which
  enumerates combinations of sets in order.

Where the C++ code updates an object in place, the model uses a `class` whose
methods carry `modifies` clauses: entities, the world, the grid, the
genotype, the agents, the collectors and the linked list. Each such method is
proved against a specification function, and the properties the code
promises are proved about those functions as lemmas. Value types and pure
computations become datatypes and functions: positions, parsers, encoders,
and the layout and enumeration rules.

Where a comment and the code disagree, the model follows the code. The
comment of the `PathAgent` string constructor says that a zero count is
treated as one, but its pattern `[1-9]\d*` refuses "0n", and so does the
model (PathAgents.ParseRejects). `PathAgent` is modelled under both
direction switches: the one the code writes, where 'e' and 'w' are
exchanged, and the corrected one (see Findings).

The sources cited below are relative to the repository root.

## Model

| member | source | states |
|---|---|---|
| Registers.GPAgentRegisters.constructor | source/Group7_GP_Agent/GPAgentsRegisters.hpp:28 | numRegisters registers, every one 0; a caller that gives no count passes DEFAULT_REGISTERS, 16 |
| Registers.GPAgentRegisters.SetRegister | source/Group7_GP_Agent/GPAgentsRegisters.hpp:40-48 | succeeds exactly for an index in bounds; then only that register changes, to the value, and reads back; out of bounds nothing changes |
| Registers.GPAgentRegisters.GetRegister | source/Group7_GP_Agent/GPAgentsRegisters.hpp:56-61 | the stored value for an index in bounds, nothing (nullopt) past the end |
| Registers.GPAgentRegisters.GetNumRegisters | source/Group7_GP_Agent/GPAgentsRegisters.hpp:67-69 | the number of registers (getNumRegisters and size) |
| LinkedList.Node.constructor | source/DataCollection/DoubleLinkedList.hpp:23 | a node holding the value, linked to nothing |
| LinkedList.DoubleLinkedList.constructor | source/DataCollection/DoubleLinkedList.hpp:33-41 | a valid empty list: size 0, null head and tail |
| LinkedList.DoubleLinkedList.GetSize | source/DataCollection/DoubleLinkedList.hpp:47-49 | the size field counts the values held from head to tail |
| LinkedList.DoubleLinkedList.AddNode | source/DataCollection/DoubleLinkedList.hpp:71-84 | keeps the links valid; the value is appended at the tail, size grows by one, the head changes only when the list was empty |
| LinkedList.DoubleLinkedList.RemoveNode | source/DataCollection/DoubleLinkedList.hpp:90-108 | keeps the links valid; on an empty list returns null and changes nothing; otherwise returns the old tail, drops the last value and subtracts one from size, leaving null head and tail when size reaches 0 |
| PacingAgents.Heading | source/Agents/PacingAgent.hpp:41-47 | the four headings: up/down exactly when vertical, up/left exactly when on the way back |
| PacingAgents.TurnRound | source/Agents/PacingAgent.hpp:17-18 | flipping reverse asks for the opposite move on the same axis; two turns restore the heading |
| PacingAgents.NextReverse | source/Agents/PacingAgent.hpp:37-39 | reverse flips exactly when the last action result was 0 |
| PacingAgents.PacingAgent.constructor | source/Agents/PacingAgent.hpp:17-21 | a fresh agent with the id and name, vertical and on its way out |
| PacingAgents.PacingAgent.Initialize | source/Agents/PacingAgent.hpp:26-28 | true exactly when every heading the agent can ask for is in its action map |
| PacingAgents.PacingAgent.SelectAction | source/Agents/PacingAgent.hpp:31-49 | turns round after a failed step, answers the mapped id of the heading (0 for an unknown name); the action map is unchanged when it holds the heading and otherwise gains exactly the heading with id 0, and nothing else of the agent changes |
| Sensors.OpenRun | source/Agents/GP/GPAgentSensors.hpp:62-73 | the run of open cells from a position is empty exactly when that position is off the grid or a wall (type 2) |
| Sensors.OpenRunIsOpen | source/Agents/GP/GPAgentSensors.hpp:62-73 | every one of the first n cells stepped over is on the grid and not a wall, and the cell after them is off the grid or a wall |
| Sensors.StepsCommute | source/Agents/GP/GPAgentSensors.hpp:63-71 | one step followed by k steps is k + 1 steps in the same direction |
| Sensors.WallDistance | source/Agents/GP/GPAgentSensors.hpp:56-90 | the number of open cells before the wall or the edge, minus one; never below -1, and -1 exactly when the agent stands off the grid or on a wall; the agent is only read |
| Sensors.GetSensorDirectionEnum | source/Agents/GP/GPAgentSensors.hpp:93-106 | a direction exactly for getLeft, getRight, getUp and getDown; the thrown invalid_argument becomes None |
| Sensors.SensorNamesRoundTrip | source/Agents/GP/GPAgentSensors.hpp:93-102 | each direction's name maps back to it, and every accepted name is its direction's name |
| AgentLibrary.BudgetShrinks | source/Agents/AgentLibary.hpp:112-116 | lowering one cost entry strictly shrinks the set of (cell, smaller value) pairs, the measure that makes the search terminate |
| AgentLibrary.ArgMin | source/Agents/AgentLibary.hpp:47-51 | the open node picked as the queue's top has a total cost f = g + h no larger than any other open node's |
| AgentLibrary.Explore | source/Agents/AgentLibary.hpp:103-118 | only on-grid, traversable neighbours become nodes, each one step from the current node, which is its parent; the search tree and cost table stay valid; cost entries only decrease, and each new node strictly lowers one |
| AgentLibrary.StepAdjacent | source/Agents/AgentLibary.hpp:72-73 | each of the four movements dx/dy leads to a cell at Manhattan distance one |
| AgentLibrary.TreeExtend | source/Agents/AgentLibary.hpp:113-114 | pushing a node one step from an existing parent keeps every node linked to an earlier, adjacent parent |
| AgentLibrary.Lowered | source/Agents/AgentLibary.hpp:112-115 | writing a smaller non-negative cost keeps the table bounded by INT_MAX and uses up part of the budget |
| AgentLibrary.InitialCosts | source/Agents/AgentLibary.hpp:76 | a cost entry, at most INT_MAX, for every cell of the grid |
| AgentLibrary.GetShortestPath | source/Agents/AgentLibary.hpp:59-122 | empty when start or end is off the grid; a non-empty path runs from end to start, each step one unit along one axis, through on-grid cells, all traversable except possibly the start |
| AgentLibrary.Search | source/Agents/AgentLibary.hpp:89-121 | the loop terminates; a non-empty result starts at end and ends at start, with adjacent, on-grid, traversable steps |
| AgentLibrary.StartSearch | source/Agents/AgentLibary.hpp:76-87 | the start is the only node and is open, its cost is 0 and every other cell's is INT_MAX |
| AgentLibrary.RemoveAt | source/Agents/AgentLibary.hpp:90-91 | the open list loses exactly the popped entry and keeps the order of the rest |
| AgentLibrary.TracePath | source/Agents/AgentLibary.hpp:96-99 | following the parent links gives a path from the reached node back to the start whose consecutive cells are adjacent, on the grid and (but for the start) traversable |
| Collectors.Bump | source/DataCollection/ItemUseCollector.hpp:43-45 | the name's count goes up by one (from 0 when it was missing), the name becomes a key, and every other count is unchanged |
| Collectors.BumpSize | source/DataCollection/ItemUseCollector.hpp:35-37 | recording a new name adds one distinct name; recording a known one adds none |
| Collectors.CountAllCounts | source/DataCollection/ItemUseCollector.hpp:43-45 | after any run of recordings, a name is a key exactly when it was recorded, and its count is the number of times it was |
| Collectors.ItemUseCollector.constructor | source/DataCollection/ItemUseCollector.hpp:21 | no usage recorded |
| Collectors.ItemUseCollector.GetNumberOfItems | source/DataCollection/ItemUseCollector.hpp:35-37 | the number of distinct item names recorded |
| Collectors.ItemUseCollector.IncrementItemUsage | source/DataCollection/ItemUseCollector.hpp:43-45 | the usage map is the old one with that item counted once more |
| Collectors.ItemUseCollector.GetMostFrequent | source/DataCollection/ItemUseCollector.hpp:51-63 | "" when nothing is recorded, otherwise a recorded item whose count is at least every other count |
| Collectors.ItemUseCollector.GetLeastFrequent | source/DataCollection/ItemUseCollector.hpp:69-81 | "" when nothing is recorded, otherwise a recorded item whose count is at most every other count |
| Collectors.Extreme | source/DataCollection/ItemUseCollector.hpp:53-57 | for any visiting order of the map's entries, the entry kept is a key whose count is maximal (or minimal), "" for an empty map |
| Collectors.AgentInteractionCollector.constructor | source/DataCollection/AgentInteractionCollector.hpp:20 | no interactions recorded, so no unique agents |
| Collectors.AgentInteractionCollector.GetUniqueInteractions | source/DataCollection/AgentInteractionCollector.hpp:32 | the number of distinct agent names recorded |
| Collectors.AgentInteractionCollector.RecordInteraction | source/DataCollection/AgentInteractionCollector.hpp:38 | the interaction map is the old one with that agent counted once more |
| Collectors.Record | source/DataCollection/DamageCollector.hpp:31-33 | the amount is appended to that item's list (a new empty list for a new item) and every other list is unchanged |
| Collectors.RecordAllAmounts | source/DataCollection/DamageCollector.hpp:31-33 | after any run of records, an item is a key exactly when some amount was recorded for it, and its list is those amounts in order |
| Collectors.Least | source/DataCollection/DamageCollector.hpp:55-59 | a member of the list no greater than any element |
| Collectors.Greatest | source/DataCollection/DamageCollector.hpp:55-59 | a member of the list no smaller than any element |
| Collectors.SumBounds | source/DataCollection/DamageCollector.hpp:58 | the accumulated sum of amounts between lo and hi lies between n·lo and n·hi |
| Collectors.DamageCollector.constructor | source/DataCollection/DamageCollector.hpp:24 | no damage recorded |
| Collectors.DamageCollector.RecordDamageResult | source/DataCollection/DamageCollector.hpp:31-33 | the amount is appended to that item's list only, and every list stays non-empty |
| Collectors.DamageCollector.GetDamageAmounts | source/DataCollection/DamageCollector.hpp:40-48 | the item's list, or the empty list for an unknown item |
| Collectors.DamageCollector.CalculateAverageDamage | source/DataCollection/DamageCollector.hpp:55-62 | -1 for an unknown item; otherwise the mean (times the count, the sum) which lies between the least and the greatest amount |
| Collectors.Mean | source/DataCollection/DamageCollector.hpp:58 | multiplied by the number of amounts gives their sum, and lies between the least and greatest amount |
| Collectors.AverageWithin | source/DataCollection/DamageCollector.hpp:58 | the average of amounts all between two bounds lies between them |
| Collectors.QuotientBetween | source/DataCollection/DamageCollector.hpp:58 | dividing a sum between n·lo and n·hi by n gives a value between lo and hi |
| Entities.TypeOf | source/core/Entity.hpp:57-64 | t_other exactly for a bool property, which GetType has no case for |
| Entities.TypeOfIdentifies | source/core/Entity.hpp:57-64 | apart from t_other, the reported type determines the stored C++ type, and values of one type report one type |
| Entities.Find | source/core/Entity.hpp:226 | std::find: the first index holding the id, or the length when none does |
| Entities.Entity.constructor | source/core/Entity.hpp:137 | the id and name given, no properties, no items, not owned, no actions, result 0 and Healthy |
| Entities.Entity.GetPropertyType | source/core/Entity.hpp:187-191 | t_other for a missing name, otherwise the reported type of the stored value |
| Entities.Entity.HasProperty | source/core/Entity.hpp:178 | a name that is not held reports type t_other |
| Entities.Entity.GetProperty | source/core/Entity.hpp:181-185 | the value returned has exactly the type GetPropertyType reports for the name; the code asserts that the property exists |
| Entities.Entity.SetProperty | source/core/Entity.hpp:194-202 | the property holds the value afterwards; every other property and every other field keeps its value; overwriting requires a value of the stored type (the failed AsProperty assert) |
| Entities.Entity.RemoveProperty | source/core/Entity.hpp:214-217 | that property is gone, every other name is present exactly as before, and no other field changes |
| Entities.Entity.HasItem | source/core/Entity.hpp:225-227 | true exactly when the id is in the inventory |
| Entities.Entity.AddItem | source/core/Entity.cpp:15-20 | the id is appended to the inventory and the item is owned by this entity with an invalid position; no other field of either entity changes (also when the item is the entity itself) |
| Entities.Entity.RemoveItem | source/core/Entity.cpp:22-27 | exactly the first occurrence of the id leaves the inventory (one fewer in the multiset) and the item becomes unowned; no other field of either entity changes |
| Entities.Entity.SetPosition | source/core/Entity.cpp:6-13 | the position changes; an item is also placed on that grid, another entity's ownership is untouched; no other field changes |
| Entities.Entity.SetOwner | source/core/ItemBase.hpp:54-61 | an item or agent owner owns the item and is the only id it is owned by, a plain entity leaves it owned by no id; either way it is off the grid with an invalid position; only the owner fields and the position change |
| Entities.Entity.SetGrid | source/core/ItemBase.hpp:63-67 | the item lies on that grid and is owned by no id; only the owner fields change |
| Entities.Entity.SetUnowned | source/core/ItemBase.hpp:68 | the item is neither owned by any id nor on a grid; only the owner type changes |
| Entities.Entity.IsOwnedBy | source/core/ItemBase.hpp:46-48 | an item owned by an entity is owned (by an item or agent) and lies on no grid, in particular not on a grid whose id equals the owner's |
| Entities.Entity.GetActionID | source/core/AgentBase.hpp:100-104 | the stored id of a known action, 0 for an unknown name |
| Entities.Entity.HasAction | source/core/AgentBase.hpp:95-97 | an action the agent does not have has id 0 |
| Entities.Entity.AddAction | source/core/AgentBase.hpp:115-119 | a new name maps to the id afterwards, every other name's id is unchanged, and no other field changes |
| Entities.Entity.ActionFor | source/core/AgentBase.hpp:32 | action_map[name]: the old id (0 for an unknown name, which is then inserted with 0) and no other field changes |
| Entities.Entity.SetActionResult | source/core/AgentBase.hpp:135 | the action result is the value given and no other field changes |
| Entities.OwnerTypeOf | source/core/ItemBase.hpp:55-57 | never GRID; NONE exactly for an owner that is neither item nor agent |
| Entities.IntProperty | source/core/Entity.hpp:181-185 | succeeds exactly for a present int property and then yields its value |
| Entities.BoolProperty | source/core/Entity.hpp:181-185 | succeeds exactly for a present bool property and then yields its value |
| Entities.HealthBands | source/core/AgentBase.hpp:66-76 | Healthy for 3 < health <= Max_Health, Dying for 1..3, Deceased at 0 or below, unchanged above the maximum; never Taking_Damage unless it already was |
| Entities.UpdatedStateSpec | source/core/AgentBase.hpp:66-82 | the update fails exactly when a property it reads is missing or of another type; a true Taking_Damage wins over the health bands; without both properties the state is kept |
| Entities.UpdateAgentState | source/core/AgentBase.hpp:66-82 | the new state is the one the rules give, and no other field of the agent changes |
| Entities.TakeDamage | source/core/AgentBase.hpp:86-90 | Health drops by the amount, the state follows the rules for the new health, and no other field of the agent changes |
| World.Select | source/core/WorldBase.hpp:339-345 | in any iteration order, an id is returned exactly when its entity is on the grid and at (or near) the position, and no id twice |
| World.FindByName | source/core/WorldBase.hpp:123-128 | some id whose entity has the name when one exists, npos exactly when none does |
| World.WorldBase.constructor | source/core/WorldBase.hpp:73-85 | the only cell type is "Unknown" at index 0; no items or agents; the counter at 0 |
| World.WorldBase.NextEntityID | source/core/WorldBase.hpp:53 | the counter goes up by one and its new value, at least 1, is returned; no other field changes |
| World.WorldBase.AddCellType | source/core/WorldBase.hpp:64-68 | the type is appended and its index, never 0, is returned; entry 0 stays "Unknown"; no other field changes |
| World.WorldBase.Reset | source/core/WorldBase.hpp:89-94 | no items or agents, the counter back to 0, run_over false; the cell types stay |
| World.WorldBase.GetNumItems | source/core/WorldBase.hpp:99 | the number of distinct item ids stored |
| World.WorldBase.GetNumAgents | source/core/WorldBase.hpp:102 | the number of distinct agent ids stored |
| World.WorldBase.GetItem | source/core/WorldBase.hpp:111-114 | the stored item carries the id asked for |
| World.WorldBase.HasItem | source/core/WorldBase.hpp:105 | a held id is a key of the item map, and in a valid world the item under it carries that id and is an item |
| World.WorldBase.HasAgent | source/core/WorldBase.hpp:108 | a held id is a key of the agent map, and in a valid world the agent under it carries that id and is an agent |
| World.WorldBase.GetAgent | source/core/WorldBase.hpp:117-120 | the stored agent carries the id asked for |
| World.WorldBase.GetItemID | source/core/WorldBase.hpp:123-128 | an id of an item with that name when there is one, npos exactly when there is none |
| World.WorldBase.GetAgentID | source/core/WorldBase.hpp:131-136 | an id of an agent with that name when there is one, npos exactly when there is none |
| World.WorldBase.AddAgent | source/core/WorldBase.hpp:185-197 | a fresh agent with the name under the next id, stored in the agent map; only the agent map and the counter change |
| World.WorldBase.AddItem | source/core/WorldBase.hpp:205-212 | the item is stored under its (non-zero) id, replacing any earlier one; only the item map changes |
| World.WorldBase.AddNamedItem | source/core/WorldBase.hpp:219-224 | a fresh item with the name under the next id, stored in the item map; only the item map and the counter change |
| World.WorldBase.RemoveAgent | source/core/WorldBase.hpp:229-232 | that id is gone, every other id is present exactly as before, and only the agent map changes |
| World.WorldBase.RemoveItem | source/core/WorldBase.hpp:237-240 | that id is gone, every other id is present exactly as before, and only the item map changes |
| World.WorldBase.RemoveNamedAgent | source/core/WorldBase.hpp:245-248 | erases one agent with that name, or erases npos (nothing) when none has it; only the agent map changes |
| World.WorldBase.RemoveNamedItem | source/core/WorldBase.hpp:253-255 | erases one item with that name, or erases npos (nothing) when none has it; only the item map changes |
| World.WorldBase.AddItemToGrid | source/core/WorldBase.hpp:257-260 | the stored item lies at the position on that grid; of its fields only the position and the owner fields change, and the world is untouched |
| World.WorldBase.GetCellTypeID | source/core/WorldBase.hpp:315-320 | the first index from 1 on with that name, 0 when none has it |
| World.WorldBase.GetCellTypeName | source/core/WorldBase.hpp:322-325 | the type's name, "Unknown" for an id out of range |
| World.WorldBase.GetCellTypeSymbol | source/core/WorldBase.hpp:327-330 | the type's symbol, '\0' for an id out of range |
| World.WorldBase.FindItemsAt | source/core/WorldBase.hpp:339-345 | exactly the items lying on that grid at that position |
| World.WorldBase.FindAgentsAt | source/core/WorldBase.hpp:350-356 | exactly the agents whose grid id is that grid and whose position is that position |
| World.WorldBase.FindItemsNear | source/core/WorldBase.hpp:362-370 | exactly the items on that grid within the distance |
| World.WorldBase.FindAgentsNear | source/core/WorldBase.hpp:376-384 | exactly the agents on that grid within the distance |
| Position.Shift | source/core/GridPosition.hpp:63-67 | a valid position moves by exactly (dx, dy); an invalid one stays invalid |
| Position.NeighboursMoveOneAxis | source/core/GridPosition.hpp:88-102 | Above/Below change only y and ToLeft/ToRight only x, up and left towards smaller coordinates, each dist away in Manhattan distance |
| Position.ShiftUndo | source/core/GridPosition.hpp:69-70 | shifting back by the negated amounts (operator-= after operator+=) restores the position |
| Position.Above | source/core/GridPosition.hpp:93 | a valid position moves dist towards smaller y, x unchanged; an invalid one stays invalid (the caller passes the C++ default 1.0 explicitly) |
| Position.Below | source/core/GridPosition.hpp:96 | a valid position moves dist towards larger y, x unchanged; an invalid one stays invalid |
| Position.ToLeft | source/core/GridPosition.hpp:99 | a valid position moves dist towards smaller x, y unchanged; an invalid one stays invalid |
| Position.ToRight | source/core/GridPosition.hpp:102 | a valid position moves dist towards larger x, y unchanged; an invalid one stays invalid |
| Position.SamePosition | source/core/GridPosition.hpp:48 | equal exactly when both are valid with equal coordinates (NaN equals nothing), which is Manhattan distance 0 |
| Position.MDistance | source/core/GridPosition.hpp:116-120 | defined (not NaN) exactly for two valid positions, and then the sum of the absolute coordinate differences |
| Position.MDistanceMetric | source/core/GridPosition.hpp:116-120 | the Manhattan distance is symmetric, zero exactly for equal positions, and obeys the triangle inequality |
| Position.NearWithinManhattan | source/core/GridPosition.hpp:122-126 | a position within Manhattan distance max_dist is near in both directions |
| Position.IsNear | source/core/GridPosition.hpp:122-126 | near only when both positions are valid (a NaN comparison is false); a valid position is near itself; max_dist has no default in the model, so a caller passes the C++ default 1.0 explicitly |
| Position.ExpectChar | source/core/GridPosition.hpp:137-139 | on success the rest of the stream is a proper suffix of the input |
| Position.FromStringToString | source/core/GridPosition.hpp:128-155 | FromString reads back exactly the position ToString wrote, whatever follows it |
| Position.ToString | source/core/GridPosition.hpp:128-132 | the text is at least five characters, opens with '(', closes with ')' and holds a comma; FromStringToString proves it reads back |
| Position.FromString | source/core/GridPosition.hpp:134-155 | a text whose first non-blank character is not '(' is an invalid position, and a valid result needs an integer x after the '(' |
| Position.FromStringRejects | source/core/GridPosition.hpp:134-148 | text with no comma or no closing parenthesis always gives the invalid position |
| PathAgents.TokenEnd | source/Agents/PathAgent.cpp:61 | the end of a token: every character up to it is non-blank and the one at it, if any, is white space |
| PathAgents.TokensFrom | source/Agents/PathAgent.cpp:57-61 | every token `iss >> single_command` yields is non-empty and holds no white space |
| PathAgents.BlankHasNoTokens | source/Agents/PathAgent.cpp:57-61 | a command string of white space only gives no token |
| PathAgents.StepsOf | source/Agents/PathAgent.cpp:66-67 | the count read into an int: the value itself up to INT_MAX, INT_MAX beyond |
| PathAgents.ParseToken | source/Agents/PathAgent.cpp:54-72 | a matched token ends in one of n, s, w, e, which is its direction; its count lies in 1..INT_MAX; a star needs a count before it |
| PathAgents.LeadingDigitPositive | source/Agents/PathAgent.cpp:54 | a count matching [1-9][0-9]* is at least 1 |
| PathAgents.ParseBare | source/Agents/PathAgent.cpp:63 | a bare direction letter is one unit step |
| PathAgents.ParseCounted | source/Agents/PathAgent.cpp:63-70 | "kd" is k unit steps and "k*d" one step scaled by k, for every count k in range |
| PathAgents.ParseRejects | source/Agents/PathAgent.cpp:54 | a star without a count, a zero count and a token not ending in a direction letter are refused |
| PathAgents.UnitOffset | source/Agents/PathAgent.cpp:74-122 | the corrected step: an offset from (0,0) of Manhattan length dist |
| PathAgents.UnitOffsetAsWritten | source/Agents/PathAgent.cpp:74-122 | the step as the switch writes it, also of Manhattan length dist |
| PathAgents.EastWestSwappedAsWritten | source/Agents/PathAgent.cpp:100-122 | as written, 'e' moves towards smaller x and 'w' towards larger x: each gives the other's corrected offset |
| PathAgents.UnitOffsetDirections | source/Agents/PathAgent.cpp:74-122 | corrected: n up, s down, e right, w left along one axis, and opposite letters cancel |
| PathAgents.CommandOffsets | source/Agents/PathAgent.cpp:77-84 | a starred command gives one scaled offset, otherwise `steps` unit offsets, under either direction switch |
| PathAgents.OffsetsOfAccepts | source/Agents/PathAgent.cpp:62-128 | a command string is accepted exactly when every one of its tokens matches, under either direction switch |
| PathAgents.OneTokenOffsets | source/Agents/PathAgent.cpp:62-123 | "kd" alone yields k unit offsets and "k*d" alone one offset scaled by k |
| PathAgents.ParseCommands | source/Agents/PathAgent.cpp:47-132 | the offsets of every token in order under the chosen switch, or the thrown invalid_argument when some token does not match |
| PathAgents.PushCommand | source/Agents/PathAgent.cpp:75-122 | the offsets gain exactly the command's offsets at the end |
| PathAgents.RejectedPrefix | source/Agents/PathAgent.cpp:126-128 | once a token is refused the whole string is refused |
| PathAgents.NextIndex | source/Agents/PathAgent.cpp:147-150 | the index after a step stays inside a non-empty path |
| PathAgents.AdvanceWithin | source/Agents/PathAgent.cpp:147 | inside the path successive calls just count the index up |
| PathAgents.AdvanceCompose | source/Agents/PathAgent.cpp:147-150 | k calls followed by j calls are k + j calls |
| PathAgents.AdvanceCycles | source/Agents/PathAgent.cpp:146-150 | the index wraps to 0 after the last offset and n calls bring it back: the offsets are applied cyclically in order |
| PathAgents.CellSum | source/Agents/PathAgent.cpp:144 | the size_t sum of two cell coordinates: below 2^64, and the plain sum when that fits |
| PathAgents.PathAgent.constructor | source/Agents/PathAgent.cpp:26-27 | a fresh agent with the id and name that walks the given offsets from index 0 |
| PathAgents.PathAgent.Initialize | source/Agents/PathAgent.cpp:134-136 | true exactly when the agent has the action "move_self" |
| PathAgents.PathAgent.SelectAction | source/Agents/PathAgent.cpp:138-153 | the agent moves by the current offset (cell coordinates added as size_t), the index advances cyclically and the id of "move_self" is returned; the action map is unchanged when it holds "move_self" and otherwise gains exactly "move_self" with id 0, and nothing else of the agent changes |
| PathAgents.NewFromCommands | source/Agents/PathAgent.cpp:47-132 | with the written switch the constructor of PathAgent.cpp, with the corrected one the intended constructor: an agent exists exactly when every token matches, and then walks the parsed offsets from index 0 |
| PathAgents.MirrorX | source/Agents/PathAgent.cpp:100-122 | reflection in the vertical axis: x negated, y kept, validity kept |
| PathAgents.StepMirrored | source/Agents/PathAgent.cpp:74-122 | the written switch gives the reflection of the corrected step for every letter and distance; n and s agree |
| PathAgents.CommandMirrored | source/Agents/PathAgent.cpp:75-122 | one command's offsets under the written switch are the corrected ones reflected, one for one |
| PathAgents.RepeatMirrored | source/Agents/PathAgent.cpp:80-84 | repeating a step and repeating its reflection give mirrored paths |
| PathAgents.OffsetsMirrored | source/Agents/PathAgent.cpp:47-132 | both switches accept the same command strings, and the written one builds the corrected path reflected left to right |
| PathAgents.Repeat | source/Agents/PathAgent.cpp:80-84 | n copies of one offset |
| SetCover.First | in_class/SetCover/solve.cpp:63-69 | k ids, the i-th equal to i |
| SetCover.FirstSolution | in_class/SetCover/solve.cpp:63-69 | a fresh vector holding 0, 1, ..., k-1 |
| SetCover.FirstIsCombination | in_class/SetCover/solve.cpp:63-69 | the first solution is strictly increasing with every id below the roll-over value, when k does not exceed it |
| SetCover.Next | in_class/SetCover/solve.cpp:72-93 | NextSolution leaves the solution's length unchanged |
| SetCover.RankFromFrame | in_class/SetCover/solve.cpp:72-93 | the rank from pos on depends only on the entries from pos on |
| SetCover.RankFromBound | in_class/SetCover/solve.cpp:72-93 | a solution with every id below the roll-over value has a rank below cap^k, which bounds the enumeration |
| SetCover.NextPrefix | in_class/SetCover/solve.cpp:72-93 | NextSolution(solution, pos) leaves every position before pos untouched |
| SetCover.NextSpec | in_class/SetCover/solve.cpp:72-93 | from a combination, a true result gives a combination again, and a false one leaves the roll-over value in the last position |
| SetCover.NextRank | in_class/SetCover/solve.cpp:72-93 | from a combination, a true result gives a strictly greater rank, so no candidate comes twice |
| SetCover.RankBump | in_class/SetCover/solve.cpp:78 | incrementing the entry at pos raises the rank from pos |
| SetCover.RankCarry | in_class/SetCover/solve.cpp:86-89 | a carry into a higher position outweighs resetting a lower one |
| SetCover.NextSolution | in_class/SetCover/solve.cpp:72-93 | the flag and the vector afterwards are those of the specification Next, whose properties are proved above |
| SetCover.UnionMembers | in_class/SetCover/solve.cpp:96-99 | a bit is set in the union exactly when one of the chosen bitsets has it |
| SetCover.UnionOf | in_class/SetCover/solve.cpp:96-99 | the or of the chosen bitsets |
| SetCover.IsLegalAsWritten | in_class/SetCover/solve.cpp:95-101 | true exactly when all MAX_ENTRY bits are set in the union |
| SetCover.IsLegal | in_class/SetCover/solve.cpp:95-114 | true exactly when every value of the universe 0..U-1 lies in one of the chosen sets |
| SetCover.IsLegalAsWrittenRejectsCover | in_class/SetCover/solve.cpp:101 | a solution covering a one-value universe is still refused by the check as written |
| SetCover.NextSolutionPassesLastSet | in_class/SetCover/solve.cpp:74 | with U as the roll-over value, a universe of 3 values and one set, the next candidate names set 1, past the end of bsets |
| SetCover.ChainExtend | in_class/SetCover/solve.cpp:119-125 | appending NextSolution of the last candidate keeps the candidates in enumeration order |
| SetCover.Solve | in_class/SetCover/solve.cpp:117-127 | the corrected solver (see Findings): terminates; a found solution covers the universe and is the first candidate in enumeration order that does, every earlier one failing; otherwise every candidate was tried and failed |
| Decimal.NatToStringValue | source/Agents/GP/CGPGenotype.hpp:241-249 | std::to_string of an unsigned value writes at least one digit, no leading zero, and the digits denote the value again |
| Decimal.Stoull | source/Agents/GP/CGPGenotype.hpp:260-264 | a successful std::stoull yields a value that fits in 64 bits; no digits and overflow are the thrown errors |
| Decimal.StoullOfNatToString | source/Agents/GP/CGPGenotype.hpp:260-264 | std::stoull reads back what std::to_string wrote, whatever non-digit text follows |
| Decimal.ExtractNat | source/core/WorldGrid.hpp:54-56 | a successful `is >> n` yields a 64-bit value and consumes at least one character |
| Decimal.ExtractNatSigned | source/core/WorldGrid.hpp:54-56 | `is >> n` into a size_t accepts a sign: "+n" reads as n, "-n" as 2^64 - n (so "-1" is SIZE_MAX), leaving the text after the digits |
| Decimal.ExtractNatOfNatToString | source/core/WorldGrid.hpp:54-56 | `is >> n` reads back a number written in decimal after any white space, and leaves the text after it |
| Decimal.ExtractInt | source/core/GridPosition.hpp:140-143 | a successful signed extraction leaves a proper suffix of the input |
| Decimal.ExtractIntOfIntToString | source/core/GridPosition.hpp:140-143 | the signed extraction reads back the decimal text of any integer and leaves the text after it |
| Base64.CharToIdx | source/Agents/GP/CGPGenotype.hpp:36-42 | every table entry is a digit value below 64 (0 for a character that is not a digit) |
| Base64.DigitTable | source/Agents/GP/CGPGenotype.hpp:34-42 | CHAR_TO_IDX inverts CHARS, and every digit character is within MAX_CHAR |
| Base64.CharsTable | source/Agents/GP/CGPGenotype.hpp:34 | CHARS holds 64 characters, and the k-th is the digit of value k |
| Base64.Encode | source/Agents/GP/CGPGenotype.hpp:47-61 | the numeral has exactly as many characters as the value has base-64 digits |
| Base64.LowDigitsAll | source/Agents/GP/CGPGenotype.hpp:56-59 | the n lowest digits of a value with n digits are its whole numeral |
| Base64.ULLToB64 | source/Agents/GP/CGPGenotype.hpp:47-61 | the base-64 numeral of the value, most significant digit first ("0" for 0) |
| Base64.EncodeShape | source/Agents/GP/CGPGenotype.hpp:47-61 | a positive value's numeral has no leading '0', and every character is in CHARS and within the table |
| Base64.DecodeEncode | source/Agents/GP/CGPGenotype.hpp:66-74 | the positional value of the numeral of x is x |
| Base64.NumDigitsBound | source/Agents/GP/CGPGenotype.hpp:54 | a value below 64^k has at most k digits |
| Base64.B64ToULL | source/Agents/GP/CGPGenotype.hpp:66-74 | the sum of each digit times 64 to its place, modulo 2^64 as size_t arithmetic wraps |
| Base64.ULLRoundTrip | source/Agents/GP/CGPGenotype.hpp:29-31 | B64ToULL(ULLToB64(x)) == x for every size_t x: the numeral has at most 11 table characters and decodes without wrapping |
| Base64.BitsValue | source/Agents/GP/CGPGenotype.hpp:93 | the value of n bits is below 2^n |
| Base64.BitsOfValue | source/Agents/GP/CGPGenotype.hpp:93-111 | std::bitset writes back the bits it read |
| Base64.ValueOfBits | source/Agents/GP/CGPGenotype.hpp:93-111 | std::bitset reads back the value it wrote |
| Base64.ZeroGroup | source/Agents/GP/CGPGenotype.hpp:95-96 | a six-bit group is worth 0 exactly when all its bits are 0 |
| Base64.Pad | source/Agents/GP/CGPGenotype.hpp:82-86 | zeros prepended, fewer than six, to a multiple of six bits |
| Base64.FromBits | source/Agents/GP/CGPGenotype.hpp:79-101 | fails (std::bitset throws invalid_argument) exactly when some character is not '0' or '1' |
| Base64.B2ToB64 | source/Agents/GP/CGPGenotype.hpp:79-101 | the digits of the zero-padded input's six-bit groups, "0" for all-zero input, the thrown error for a non-binary character |
| Base64.GroupDigits | source/Agents/GP/CGPGenotype.hpp:88-100 | on aligned input: one digit per group, "0" when every group is zero, the thrown error when a group is not binary |
| Base64.ScanFromBits | source/Agents/GP/CGPGenotype.hpp:91-97 | the loop yields the digits of the groups and whether all bits are zero, and fails exactly on a non-binary bit |
| Base64.PaddedFromBits | source/Agents/GP/CGPGenotype.hpp:82-86 | the recursive call on the padded input gives the same result |
| Base64.AlignedFromBits | source/Agents/GP/CGPGenotype.hpp:88-100 | on aligned binary input: "0" for all zeros, otherwise one digit per group |
| Base64.FirstNonZero | source/Agents/GP/CGPGenotype.hpp:114 | find_first_not_of('0'): an index holding a character other than '0', or the length |
| Base64.ZerosBeforeFirstNonZero | source/Agents/GP/CGPGenotype.hpp:114 | every character before that index is '0' |
| Base64.B64ToB2 | source/Agents/GP/CGPGenotype.hpp:106-115 | six bits per character, leading zeros erased but one character always kept |
| Base64.ToBitsShape | source/Agents/GP/CGPGenotype.hpp:106-115 | the bits of the digits with only leading zeros removed: non-empty, starting with 1 unless they are "0" |
| Base64.StripShape | source/Agents/GP/CGPGenotype.hpp:114 | the erase removes only leading zeros and keeps a leading 1 or a single "0" |
| Base64.ExpandGroups | source/Agents/GP/CGPGenotype.hpp:106-112 | expanding the digits of six-bit groups gives the groups back |
| Base64.GroupDigit | source/Agents/GP/CGPGenotype.hpp:93-111 | one group's digit expands to that group again |
| Base64.FirstNonZeroAfterZeros | source/Agents/GP/CGPGenotype.hpp:114 | after z prepended zeros the first non-zero lies z places further on |
| Base64.BitsRoundTrip | source/Agents/GP/CGPGenotype.hpp:29-31 | B2ToB64 succeeds on non-empty binary input with table characters only, and B64ToB2 brings back the bits up to leading zeros |
| Base64.ZeroRoundTrip | source/Agents/GP/CGPGenotype.hpp:106-115 | B64ToB2("0") is "0" |
| Base64.NonZeroRoundTrip | source/Agents/GP/CGPGenotype.hpp:79-115 | for binary input with a 1, B64ToB2(B2ToB64(b)) is b without its leading zeros |
| Base64.GroupsInTable | source/Agents/GP/CGPGenotype.hpp:94 | every digit B2ToB64 writes may index CHAR_TO_IDX |
| CGP.Fields | source/Agents/GP/CGPGenotype.hpp:193-203 | the five parameters, in the order of the header |
| CGP.FindFrom | source/Agents/GP/CGPGenotype.hpp:258 | std::string::find: a position at or after the start, holding the character unless it is the length (npos) |
| CGP.FindFromFirst | source/Agents/GP/CGPGenotype.hpp:258 | find returns the first occurrence: no earlier position holds the character |
| CGP.FieldsFromErr | source/Agents/GP/CGPGenotype.hpp:259-264 | a field that std::stoull rejects makes the whole header fail with that error |
| CGP.FieldsFromNext | source/Agents/GP/CGPGenotype.hpp:259-262 | after a field followed by a separator the loop reads on from the next position and keeps the value |
| CGP.FieldsFromLast | source/Agents/GP/CGPGenotype.hpp:264 | the field after the last separator is read to the end and ends the list |
| CGP.OccurrencesAfter | source/Agents/GP/CGPGenotype.hpp:258-262 | the separators from a position on are the one find returns plus those after it |
| CGP.FieldsFromCount | source/Agents/GP/CGPGenotype.hpp:256-264 | a header read without error has one field more than it has separators |
| CGP.FieldsFromHead | source/Agents/GP/CGPGenotype.hpp:259-264 | the first field read is either the last one or followed by the fields after its separator |
| CGP.HeaderNeedsFiveFields | source/Agents/GP/CGPGenotype.hpp:266-272 | once every field is a number, DecodeHeader succeeds exactly when the header has four separators, and otherwise reports the field count |
| CGP.NumeralFacts | source/Agents/GP/CGPGenotype.hpp:241-249 | what std::to_string writes for a size_t is read back by std::stoull and contains neither HEADER_SEP nor HEADER_END |
| CGP.JoinedOfJoin | source/Agents/GP/CGPGenotype.hpp:239-251 | the encoded header holds the numerals of the fields separated by HEADER_SEP, at the positions the decoder looks |
| CGP.FieldsOfJoin | source/Agents/GP/CGPGenotype.hpp:254-264 | the decoding loop reads back, in order, every number of a joined list |
| CGP.HeaderRoundTrip | source/Agents/GP/CGPGenotype.hpp:239-278 | DecodeHeader(EncodeHeader()) restores all five parameters whenever they fit in size_t |
| CGP.JoinChars | source/Agents/GP/CGPGenotype.hpp:239-251 | the header consists of digits and HEADER_SEP only |
| CGP.ConfigureNeedsHeaderEnd | source/Agents/GP/CGPGenotype.hpp:412-414 | Configure throws the "no newline" error exactly when the text has no HEADER_END |
| CGP.ExportHeaderRoundTrip | source/Agents/GP/CGPGenotype.hpp:410-419 | the header Configure reads from Export's text gives back the exported parameters, whatever node genes follow |
| CGP.ConnectionRule | source/Agents/GP/CGPGenotype.hpp:529-535 | a node reads every node of the layersBack layers before it; where fewer layers exist, the input layer counts numInputs nodes |
| CGP.LayersSize | source/Agents/GP/CGPGenotype.hpp:526-541 | the middle layers together hold numLayers times numNodesPerLayer nodes |
| CGP.LayoutSize | source/Agents/GP/CGPGenotype.hpp:428 | InitGenotype builds exactly GetFunctionalNodeCount nodes, the count Configure asserts |
| CGP.LayersUnconnected | source/Agents/GP/CGPGenotype.hpp:536-539 | every node InitGenotype builds has only '0' connections and function index 0 |
| CGP.LayersPlacement | source/Agents/GP/CGPGenotype.hpp:526-541 | the j-th node of layer i sits after all nodes of earlier layers and has that layer's connection count |
| CGP.Ones | source/Agents/GP/CGPGenotype.hpp:472-475 | the number of '1' characters is at most the length |
| CGP.ConnectionsBound | source/Agents/GP/CGPGenotype.hpp:459-478 | GetNumConnections never exceeds GetNumPossibleConnections |
| CGP.OnesOfZeros | source/Agents/GP/CGPGenotype.hpp:472-475 | a connection string of '0' only counts no connection |
| CGP.OnesOfBinary | source/Agents/GP/CGPGenotype.hpp:472-475 | a binary connection string with a non-zero character counts at least one connection |
| CGP.ConnectedIffOnes | source/Agents/GP/CGPGenotype.hpp:469-517 | for binary connections, GetNumConnections is 0 exactly when HasInputConnections is false |
| CGP.LayoutUnconnected | source/Agents/GP/CGPGenotype.hpp:519-542 | a freshly initialised genotype has no connection at all |
| CGP.EmptyConnectionsRejected | source/Agents/GP/CGPGenotype.hpp:333-345 | as written: a node with no input connections is exported as "0", whose one bit does not fit in the node, so decoding fails its assert |
| CGP.RestoreConnections | source/Agents/GP/CGPGenotype.hpp:333-346 | restored connections always have the node's connection count |
| CGP.ConnectionsRoundTrip | source/Agents/GP/CGPGenotype.hpp:286-346 | every node's binary connections, including an empty list, survive B2ToB64 and the restoring step |
| CGP.SplitHeader | source/Agents/GP/CGPGenotype.hpp:254-264 | the loop computes the fields of the header, or the first std::stoull error |
| CGP.Genotype.constructor | source/Agents/GP/CGPGenotype.hpp:378 | the given parameters and the layout InitGenotype builds for them |
| CGP.Genotype.InitGenotype | source/Agents/GP/CGPGenotype.hpp:519-542 | the nodes become the layer-by-layer layout of the unchanged parameters |
| CGP.Genotype.DecodeHeader | source/Agents/GP/CGPGenotype.hpp:254-278 | on success the parameters are the five fields read; on a thrown error they and the nodes stay as they were |
| CGP.Genotype.Configure | source/Agents/GP/CGPGenotype.hpp:410-422 | on success the parameters come from the header before HEADER_END and the nodes are laid out afresh; on an error nothing changes |
| CGP.Genotype.GetNumPossibleConnections | source/Agents/GP/CGPGenotype.hpp:459-465 | the total length of all nodes' connection lists |
| CGP.Genotype.GetNumConnections | source/Agents/GP/CGPGenotype.hpp:469-478 | the number of '1' characters over all nodes |
| CGP.Genotype.HasInputConnections | source/Agents/GP/CGPGenotype.hpp:510-517 | true exactly when some connection character is not '0' |
| Grid.IdxBijection | source/core/WorldGrid.hpp:29-36 | row-major ToIndex maps the on-grid coordinates one-to-one onto the indices 0 .. width*height-1 |
| Grid.IdxBound | source/core/WorldGrid.hpp:34-36 | an on-grid coordinate pair indexes inside the cell vector |
| Grid.IdxInjective | source/core/WorldGrid.hpp:34-36 | two coordinate pairs with in-range columns and the same index are the same pair |
| Grid.IdxDivMod | source/core/WorldGrid.hpp:34-36 | dividing an index by the width gives back its row and column |
| Grid.IdxCovers | source/core/WorldGrid.hpp:29-36 | every index below width*height is the index of an on-grid pair |
| Grid.Resized | source/core/WorldGrid.hpp:107-124 | the resized grid has new_width*new_height cells |
| Grid.FilledStart | source/core/WorldGrid.hpp:109 | the new vector starts with every cell at the default type |
| Grid.FilledStep | source/core/WorldGrid.hpp:114-118 | copying cell (x, y) of the overlap sets exactly that new cell and leaves the others |
| Grid.FilledColumn | source/core/WorldGrid.hpp:115-117 | once the overlap's rows of column x are copied, the copy moves on to column x + 1 |
| Grid.FilledAll | source/core/WorldGrid.hpp:114-121 | after every overlapping column is copied, the new cells are the resized grid |
| Grid.ResizedAt | source/core/WorldGrid.hpp:107-124 | after Resize, a cell inside both the old and the new bounds keeps its type and every other cell has the default type |
| Grid.ResizedSameSize | source/core/WorldGrid.hpp:107-124 | resizing to the current dimensions leaves every cell as it was |
| Grid.ResizedGrowShrink | source/core/WorldGrid.hpp:107-124 | growing a grid and shrinking it back restores the original cells |
| Grid.CellsTextSnoc | source/core/WorldGrid.hpp:48 | each further cell adds one blank and its decimal value at the end of the text |
| Grid.ReadNats | source/core/WorldGrid.hpp:56 | n successful extractions yield n values |
| Grid.ParseHeader | source/core/WorldGrid.hpp:54-55 | accepted dimensions give a cell count that fits in a size_t |
| Grid.ParseGrid | source/core/WorldGrid.hpp:53-57 | a successful read yields exactly width*height cells |
| Grid.WithSize | source/core/WorldGrid.hpp:55-56 | the read succeeds exactly when all cells were extracted, and then carries the dimensions read |
| Grid.SerializeRoundTrip | source/core/WorldGrid.hpp:45-57 | Deserialize_impl reads back exactly the dimensions and cells Serialize_impl wrote, whatever follows in the stream |
| Grid.ParseGridHeader | source/core/WorldGrid.hpp:53-57 | after the written dimensions the reader goes on to the cells, unless their product overflows size_t |
| Grid.ParseHeaderOfText | source/core/WorldGrid.hpp:47-54 | "width height" as written is read back as the two dimensions |
| Grid.HeaderOfFields | source/core/WorldGrid.hpp:54 | the dimensions are the first two numbers extracted |
| Grid.ReadNatsOfCellsText | source/core/WorldGrid.hpp:48-56 | the cell text as written is read back, value by value, as the cells |
| Grid.CellsTextHead | source/core/WorldGrid.hpp:48-56 | the first extraction from the cell text yields the first cell and leaves the text of the others |
| Grid.CellsTextStart | source/core/WorldGrid.hpp:48 | the cell text never starts with a digit, so a preceding number ends before it |
| Grid.RowSymbols | source/core/WorldGrid.hpp:136-138 | one symbol per column, none a line break when no symbol is one |
| Grid.WriteText | source/core/WorldGrid.hpp:133-142 | the written text is empty or ends with a newline |
| Grid.LineEnd | source/core/WorldGrid.hpp:166 | the line std::getline takes ends at the first newline or at the end of the stream |
| Grid.LineEndPrefix | source/core/WorldGrid.hpp:166 | text after a complete first line does not change where it ends |
| Grid.LineEndBefore | source/core/WorldGrid.hpp:166 | the first line ends no later than any newline |
| Grid.LinesConcat | source/core/WorldGrid.hpp:166-169 | reading text that ends a line at a boundary reads the lines of each part in turn |
| Grid.LinesCons | source/core/WorldGrid.hpp:166-167 | a stream yields its first line and then the lines after that line's newline |
| Grid.LinesOfOneLine | source/core/WorldGrid.hpp:139-166 | a row followed by a newline is read back as exactly that one line |
| Grid.LineEndOfLine | source/core/WorldGrid.hpp:166 | a line without a break followed by a newline ends just before the newline |
| Grid.Rows | source/core/WorldGrid.hpp:135-140 | height rows of exactly width symbols each |
| Grid.WriteLines | source/core/WorldGrid.hpp:133-169 | getline splits Write's output into the rows Write printed, one line per row |
| Grid.SymbolMapLast | source/core/WorldGrid.hpp:157-160 | a symbol is in the map exactly when some type has it, and it maps to the last such type |
| Grid.RowCells | source/core/WorldGrid.hpp:176-179 | each line becomes exactly width cells |
| Grid.ReadRows | source/core/WorldGrid.hpp:173-181 | Read stores width cells per line |
| Grid.MaxLen | source/core/WorldGrid.hpp:165-168 | the width Read takes is the length of the longest line, 0 for no lines |
| Grid.ReadWriteRoundTrip | source/core/WorldGrid.hpp:133-182 | with distinct symbols that are not line breaks, Read restores the cells and height Write printed, and the width when there is a row |
| Grid.ReadGridOfLines | source/core/WorldGrid.hpp:155-182 | Read's height is the number of lines and its cells are those of the lines read at the longest line's width |
| Grid.ReadAllRows | source/core/WorldGrid.hpp:165-181 | the rows Write prints are width long and read back as the cells |
| Grid.MaxLenOfRows | source/core/WorldGrid.hpp:165-168 | the longest of the printed rows is exactly the width |
| Grid.ReadRowsOfWrite | source/core/WorldGrid.hpp:173-181 | the first n printed rows read back as the first n*width cells |
| Grid.LastRowRead | source/core/WorldGrid.hpp:175-181 | the last printed row reads back as that row's cells |
| Grid.RowReadAt | source/core/WorldGrid.hpp:176-179 | the line printed for row y reads back as row y of the cells |
| Grid.CellReadAt | source/core/WorldGrid.hpp:178-179 | each printed symbol reads back as the cell it was printed from |
| Grid.SymbolReadBack | source/core/WorldGrid.hpp:157-160 | with distinct symbols, the symbol map sends each type's symbol back to that type |
| Grid.RowsStep | source/core/WorldGrid.hpp:175-181 | reading n rows is reading the first n - 1 rows and then the last |
| Grid.WorldGrid.constructor | source/core/WorldGrid.hpp:61-62 | a width-by-height grid whose every cell holds the default type |
| Grid.WorldGrid.GetNumCells | source/core/WorldGrid.hpp:72 | the number of cells is width times height |
| Grid.WorldGrid.ToIndex | source/core/WorldGrid.hpp:34-36 | an on-grid pair indexes a cell whose column and row are that pair |
| Grid.WorldGrid.IsValid | source/core/WorldGrid.hpp:75-77 | an on-grid pair exists only on a grid with positive width and height |
| Grid.WorldGrid.At | source/core/WorldGrid.hpp:85-88 | the cell at row-major index y*width+x, which lies within the cells; the code asserts the pair is on the grid |
| Grid.WorldGrid.AtPos | source/core/WorldGrid.hpp:97 | the cell in row p.y, column p.x, at row-major index p.y*width+p.x |
| Grid.WorldGrid.SetAt | source/core/WorldGrid.hpp:91-94 | writing through At changes that one cell and no other, and keeps the dimensions |
| Grid.WorldGrid.Resize | source/core/WorldGrid.hpp:107-124 | the new dimensions and the resized cells: the old overlap, the default elsewhere |
| Grid.WorldGrid.Serialize | source/core/WorldGrid.hpp:46-50 | the text is the dimensions, then each cell after a blank, then a newline |
| Grid.WorldGrid.Deserialize | source/core/WorldGrid.hpp:53-57 | the stream stays good exactly when the dimensions and all cells are read, and then the grid holds them; a failed read leaves the empty 0 by 0 grid (see Left out) |
| Grid.WorldGrid.LoadCells | source/core/WorldGrid.hpp:55-56 | all width*height cells are read and stored with those dimensions, or the read fails and leaves the empty 0 by 0 grid (see Left out) |
| Grid.WorldGrid.Write | source/core/WorldGrid.hpp:133-142 | the text holds one line of symbols per row |
| Grid.WorldGrid.Read | source/core/WorldGrid.hpp:155-182 | the grid becomes the dimensions and cells read from the text's lines |
| Grid.BuildSymbolMap | source/core/WorldGrid.hpp:157-160 | the symbol map of all types, a later type overriding an earlier one with the same symbol |
| Grid.ReadLines | source/core/WorldGrid.hpp:163-169 | the lines std::getline returns, and the length of the longest |
| Grid.LinesStep | source/core/WorldGrid.hpp:166-167 | one std::getline call takes the first line off the front of the stream |
| Grid.MaxLenSnoc | source/core/WorldGrid.hpp:168 | a longer line raises the width to its length, a shorter one leaves it |
| Grid.FillCells | source/core/WorldGrid.hpp:173-181 | the cells of every line at the width: the symbol's type, or 0 for a missing column or an unknown symbol |
| Grid.ReadCells | source/core/WorldGrid.hpp:56 | the loop reads the same values as n extractions, or fails where one fails |
| Entities.TakeDamageAlwaysFails | source/core/AgentBase.hpp:86-90 | as written, TakeDamage fails on every agent: Taking_Damage cannot be read both as int here and as bool by UpdateAgentState |
| Decimal.ExtractNatOfNumeral | source/core/WorldGrid.hpp:54 | `is >> width` reads back a number written by to_string and leaves the text after it |
| Decimal.ExtractNonNegative | source/core/GridPosition.hpp:140-143 | `ss >> x` reads back the decimal text of a non-negative coordinate |
| Decimal.ExtractNegative | source/core/GridPosition.hpp:140-143 | `ss >> x` reads back a minus sign followed by the digits of a negative coordinate |

## Left out

### Numbers and their representation

- Doubles are not modelled:
  - Grid-position coordinates are integers, and NaN (an invalid position) is the `Invalid` constructor.
  - Damage amounts are exact reals, with no rounding.
  - The `default_output` of a CGP node gene is dropped, and so are `DoubleToB64` and `B64ToDouble`.
- Base64.ULLToB64: the digit count `1 + floor(log(x)/log(64))` is floating point. The model counts the base-64 digits exactly, so a rounding error of `std::log` near a power of 64 is not captured.
- Base64.B64ToULL: the input is limited to at most 11 characters from `CHARS`. Beyond that, `pow(64, k)` cast to `size_t` is undefined, and a character outside the table indexes past `CHAR_TO_IDX`.
- Wrap-around of `size_t` is not modelled in these places:
  - `GetNumConnections` and `GetNumPossibleConnections`;
  - the connection count of `InitGenotype`;
  - the entity-id counter.

  All of them are unbounded naturals.
- Overflow of `int` is not modelled. In C++ it is undefined behaviour, not wrap-around. It concerns the collectors' usage and interaction counters and `GetNumberOfItems`, the `size` of `DoubleLinkedList`, and the agent's `Health` property. All of them are unbounded integers in the model.
- Position.ToString and Position.FromStringToString: coordinates are written as exact whole numbers. `operator<<` on a double prints six significant digits, so a coordinate of magnitude 10^6 or more comes out rounded and in exponent form ("1.23457e+06"). The round trip is proved for the exact form only, and it does not hold in the code for such coordinates.
- Grid.ParseHeader and Grid.WorldGrid.Deserialize: a width times height above SIZE_MAX is a failed read in the model. In the code, `cells.resize(width * height)` takes the product modulo 2^64, or throws `std::length_error` when that is still too large. The resulting grid's cell count then disagrees with its dimensions, and neither outcome is captured.
- PathAgents.CellSum: converting a negative double to `size_t` is undefined in C++. The model takes the two's-complement value modulo 2^64.

### Input, output and randomness

- Everything that prints, or opens a file, is left out:
  - `Load`, `Print` and `PrintSolution` of the set-cover solver;
  - `WriteToDamageFile` and the JSON output of the collectors;
  - the file-name overloads of `WorldGrid::Write` and `WorldGrid::Read`;
  - debug printing.
- Streams are strings. The text read from a stream is a parameter, and the text written is a result.
- Randomness is left out: the `Mutate*` functions of the genotype, and the random helpers of `WorldBase`.
- The iteration order of `std::unordered_map` is unspecified. The lemmas about `Select`, `FindByName` and `Extreme` hold for any order.

### Operations modelled in part

- CGP.Genotype.Configure: the model stops after `InitGenotype`. `DecodeGenotype` is modelled only for its input-connection step (RestoreConnections). The function index and the default output of each node gene are not decoded.
- AgentLibrary.GetShortestPath:
  - The traversability test of the world is a parameter.
  - Ties in the priority queue are broken by taking the first open node with the least f.
  - Completeness and optimality of A* are not proved. What is proved: a returned path is a chain of adjacent, traversable, on-grid cells from the end back to the start, and the search terminates.
- WorldBase:
  - `AddAgent` does not model the calls it makes on the new agent: `SetWorld`, the variadic `SetProperties`, `ConfigAgent` and the `Initialize` message.
  - Also left out: `Serialize`, the map of grids and `GetGrid`, and `Run`/`RunAgents`/`CollectData`/`DoAction`/`storeActionMap`.
- Entity::AddItem and Entity::RemoveItem look the item up in the world. The model passes the item itself.
- Loops split out as methods of their own: GroupDigits (the loop of B2ToB64), Search and StartSearch (GetShortestPath), SplitHeader (DecodeHeader), and BuildSymbolMap, ReadLines and FillCells (WorldGrid::Read).
- Grid.WorldGrid.Deserialize and Grid.WorldGrid.LoadCells: on a failed read the model leaves an empty 0 by 0 grid; the stream's failure is modelled exactly. The code leaves a different state, which is not captured:
  - A failed `is >> width` stores 0 in width, and height is not read, so it keeps its old value.
  - A failed `is >> height` stores 0 in height.
  - A failed cell read keeps the dimensions just read. The cells are already resized to width times height, so the cells before the failure hold the values read, the failed one holds 0, and the rest keep their old contents or 0.
- Collectors.DamageCollector.GetDamageAmounts: returns the item's list as a value. The code returns a non-const reference into the map, or to one static empty vector shared by all calls for unknown items. The aliasing this creates is not captured: a caller that appends through the reference changes the collector, or changes what later calls for any unknown item return.
- SetCover.Solve: models the solver with both corrections listed under Findings. The roll-over value of the last position is the number of sets, and legality asks only for the bits of the universe. The solver as written is captured by SetCover.NextSolutionPassesLastSet and SetCover.IsLegalAsWrittenRejectsCover, not by a run of its loop.
- The accessors `GetUsageData`, `GetInteractionData` and `GetPropertyMap` are not modelled. They return a copy of a field that the model exposes directly.

### Preconditions taken from the code's own asserts or undefined behaviour

- Entities.Entity.AddItem and Entities.Entity.RemoveItem: the item must not already be held (AddItem), or must be held (RemoveItem).
- Entities.Entity.AddAction: the action name must not be present.
- World.WorldBase.GetItem and World.WorldBase.GetAgent: the id must be present.
- World.WorldBase.RemoveNamedAgent: the name must not be "Interface".
- Entities.Entity.SetProperty: overwriting a property must keep its type.
- Entities.TakeDamage: the damage amount is a parameter, because the code's own read of Taking_Damage always fails (see Findings).
- SetCover.Solve: requires `1 <= sol_size <= |bsets|`. A size of 0 underflows `solution.size()-1`, and a larger size indexes past `bsets`.
- PathAgents.PathAgent.SelectAction: requires a non-empty path and a valid position. An empty path indexes `offsets_` out of range.
- World.WorldBase.AddItemToGrid: requires the item id to be present. With a missing id, `item_map[item_id]` inserts a null pointer, and calling `SetPosition` through it is undefined behaviour (source/core/WorldBase.hpp:258).
- Grid.WorldGrid.Write: requires every cell to index the type table. The code's `types[cells[cell_id]]` with an out-of-range index is undefined behaviour (source/core/WorldGrid.hpp:138).

## Findings

| source | as written | input that shows it | evidently intended | confidence | as-written member | corrected member |
|---|---|---|---|---|---|---|
| source/Agents/PathAgent.cpp:100-122 | 'e' pushes `ToLeft` and 'w' pushes `ToRight` | the command "e" gives the offset (-1,0) | east moves to larger x, west to smaller x | high, not executed | PathAgents.EastWestSwappedAsWritten | PathAgents.UnitOffsetDirections |
| in_class/SetCover/solve.cpp:101 | `result.all()` asks for all MAX_ENTRY (1000) bits | sets [{0}], U = 1, solution [0] covers the universe but is refused | every value below U is covered | high, not executed | SetCover.IsLegalAsWrittenRejectsCover | SetCover.IsLegal |
| in_class/SetCover/solve.cpp:74 | the roll-over value of the last position is U, the universe size, though ids index `bsets` | U = 3 and one set: the solution [0] becomes [1], past the last set | roll over at the number of sets | high, not executed | SetCover.NextSolutionPassesLastSet | SetCover.Solve |
| source/core/AgentBase.hpp:86-90 | TakeDamage reads Taking_Damage as int; UpdateAgentState then reads it as bool | any agent with int Health and Taking_Damage properties fails the type assert of GetProperty | the damage amount is an int kept apart from the bool flag | medium, not executed | Entities.TakeDamageAlwaysFails | Entities.TakeDamage |
| source/Agents/GP/CGPGenotype.hpp:333-345 | a node with no input connections is exported as "0", which B64ToB2 turns into one bit, more than the node holds, so the assert on line 340 fails | parameters with layers_back = 0, exported and configured again | an all-zero encoding fits any node, including one with no connections | high, not executed | CGP.EmptyConnectionsRejected | CGP.ConnectionsRoundTrip |
