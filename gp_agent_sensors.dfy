/** The wall sensors of GPAgentSensors.hpp: how many open cells lie between
    an agent and the nearest wall (cell type 2) or the grid edge in one of
    four directions, and the names by which a genetic program asks for them. */
module Sensors {
  import opened Wrappers
  import opened Position
  import opened Grid
  import opened Entities

  /** The cell type that stops a sensor. */
  const WALL: nat := 2

  datatype SensorDirection = Left | Right | Above | Below

  /** The neighbouring position in that direction. */
  function StepTowards(p: GridPosition, dir: SensorDirection): GridPosition
  {
    match dir
    case Left => ToLeft(p, 1)
    case Right => ToRight(p, 1)
    case Above => Position.Above(p, 1)
    case Below => Position.Below(p, 1)
  }

  /** How many more steps in that direction stay on a w-by-h grid. */
  function Remaining(p: GridPosition, dir: SensorDirection, w: nat, h: nat): nat
  {
    if !p.Pos? then 0
    else match dir
      case Left => if p.x + 1 > 0 then p.x + 1 else 0
      case Right => if w - p.x > 0 then w - p.x else 0
      case Above => if p.y + 1 > 0 then p.y + 1 else 0
      case Below => if h - p.y > 0 then h - p.y else 0
  }

  /** The number of consecutive on-grid, non-wall cells from p on in that
      direction, p included. */
  function OpenRun(grid: WorldGrid, p: GridPosition, dir: SensorDirection): (n: nat)
    reads grid
    requires grid.Valid()
    ensures n == 0 <==> !grid.IsValidPos(p) || grid.AtPos(p) == WALL
    decreases Remaining(p, dir, grid.width, grid.height)
  {
    if grid.IsValidPos(p) && grid.AtPos(p) != WALL then 1 + OpenRun(grid, StepTowards(p, dir), dir) else 0
  }

  /** The cell k steps from p in that direction. */
  function StepsTowards(p: GridPosition, dir: SensorDirection, k: nat): GridPosition
  {
    if k == 0 then p else StepTowards(StepsTowards(p, dir, k - 1), dir)
  }

  /** The run really is open: the first n cells are on the grid and no wall,
      and the one after them is off the grid or a wall. */
  lemma {:induction false} OpenRunIsOpen(grid: WorldGrid, p: GridPosition, dir: SensorDirection, k: nat)
    requires grid.Valid()
    ensures k < OpenRun(grid, p, dir) ==>
      grid.IsValidPos(StepsTowards(p, dir, k)) && grid.AtPos(StepsTowards(p, dir, k)) != WALL
    ensures k == OpenRun(grid, p, dir) ==>
      !grid.IsValidPos(StepsTowards(p, dir, k)) || grid.AtPos(StepsTowards(p, dir, k)) == WALL
    decreases k
  {
    if k > 0 && OpenRun(grid, p, dir) > 0 {
      OpenRunIsOpen(grid, StepTowards(p, dir), dir, k - 1);
      StepsCommute(p, dir, k - 1);
    }
  }

  /** Taking one step first and then k is taking k + 1 steps. */
  lemma {:induction false} StepsCommute(p: GridPosition, dir: SensorDirection, k: nat)
    ensures StepsTowards(StepTowards(p, dir), dir, k) == StepsTowards(p, dir, k + 1)
  {
    if k > 0 {
      StepsCommute(p, dir, k - 1);
    }
  }

  /** Sensors::wallDistance: the steps taken before leaving the open cells,
      minus one. The agent's position is only read. */
  method WallDistance(grid: WorldGrid, agent: Entity, direction: SensorDirection) returns (distance: int)
    requires grid.Valid()
    ensures distance == OpenRun(grid, agent.position, direction) - 1
    ensures distance >= -1
    ensures distance == -1 <==> !grid.IsValidPos(agent.position) || grid.AtPos(agent.position) == WALL
  {
    var steps := 0;
    var position := agent.position;
    while grid.IsValidPos(position) && grid.AtPos(position) != WALL
      invariant steps + OpenRun(grid, position, direction) == OpenRun(grid, agent.position, direction)
      decreases Remaining(position, direction, grid.width, grid.height)
    {
      position := StepTowards(position, direction);
      steps := steps + 1;
    }
    distance := steps - 1;
  }

  /** Sensors::getSensorDirectionEnum: None where it throws
      std::invalid_argument. */
  function GetSensorDirectionEnum(name: string): (r: Option<SensorDirection>)
    ensures r.Some? <==> name in {"getLeft", "getRight", "getUp", "getDown"}
  {
    if name == "getLeft" then Some(Left)
    else if name == "getRight" then Some(Right)
    else if name == "getUp" then Some(Above)
    else if name == "getDown" then Some(Below)
    else None
  }

  /** The name a program uses for each direction. */
  function SensorName(dir: SensorDirection): string
  {
    match dir
    case Left => "getLeft"
    case Right => "getRight"
    case Above => "getUp"
    case Below => "getDown"
  }

  /** Every direction has exactly one name, and the names lead back to it. */
  lemma SensorNamesRoundTrip(dir: SensorDirection, name: string)
    ensures GetSensorDirectionEnum(SensorName(dir)) == Some(dir)
    ensures GetSensorDirectionEnum(name).Some? ==> SensorName(GetSensorDirectionEnum(name).value) == name
  {
  }
}
