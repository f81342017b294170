/** PacingAgent (PacingAgent.hpp): an agent that walks back and forth along a
    column (vertical) or a row, turning round whenever its last step failed. */
module PacingAgents {
  import opened Entities

  /** The action a pacing agent asks for: up or down when vertical, left or
      right otherwise, the first of each pair when on its way back. */
  function Heading(vertical: bool, reverse: bool): (a: string)
    ensures a == "up" || a == "down" || a == "left" || a == "right"
    ensures (a == "up" || a == "down") <==> vertical
    ensures (a == "up" || a == "left") <==> reverse
  {
    if vertical then (if reverse then "up" else "down")
    else (if reverse then "left" else "right")
  }

  function Opposite(a: string): string
  {
    if a == "up" then "down" else if a == "down" then "up"
    else if a == "left" then "right" else if a == "right" then "left"
    else a
  }

  /** Turning round asks for the opposite action on the same axis, and two
      turns restore the heading. */
  lemma TurnRound(vertical: bool, reverse: bool)
    ensures Heading(vertical, !reverse) == Opposite(Heading(vertical, reverse))
    ensures Opposite(Opposite(Heading(vertical, reverse))) == Heading(vertical, reverse)
  {
  }

  /** The reverse flag after SelectAction: flipped exactly when the last
      action result was 0. */
  function NextReverse(reverse: bool, lastResult: int): (r: bool)
    ensures r != reverse <==> lastResult == 0
  {
    if lastResult == 0 then !reverse else reverse
  }

  class PacingAgent {
    const agent: Entity
    var vertical: bool
    var reverse: bool

    /** PacingAgent(id, name): vertical, on its way out. */
    constructor (id: nat, name: string)
      ensures fresh(agent) && agent.kind == AgentKind && agent.id == id && agent.name == name
      ensures vertical && !reverse && agent.actionMap == map[]
    {
      agent := new Entity(AgentKind, id, name);
      vertical := true;
      reverse := false;
    }

    /** Initialize: all four moves must be available. */
    function Initialize(): (ok: bool)
      reads this, agent
      ensures ok <==> forall v, r :: agent.HasAction(Heading(v, r))
    {
      assert Heading(true, true) == "up" && Heading(true, false) == "down";
      assert Heading(false, true) == "left" && Heading(false, false) == "right";
      agent.HasAction("up") && agent.HasAction("down") && agent.HasAction("left") && agent.HasAction("right")
    }

    /** SelectAction: a failed last step turns the agent round; the answer is
        the id of the heading's action (inserted as 0 when unknown). Nothing
        but reverse, and the action table for an unknown heading, changes. */
    method SelectAction() returns (action: nat)
      modifies this, agent
      ensures reverse == NextReverse(old(reverse), agent.actionResult) && vertical == old(vertical)
      ensures var h := Heading(vertical, reverse);
        action == if h in old(agent.actionMap) then old(agent.actionMap)[h] else 0
      ensures var h := Heading(vertical, reverse);
        agent.actionMap == if h in old(agent.actionMap) then old(agent.actionMap) else old(agent.actionMap)[h := 0]
      ensures agent.Snapshot() == old(agent.Snapshot()).(actionMap := agent.actionMap)
    {
      if agent.actionResult == 0 {
        reverse := !reverse;
      }
      if vertical {
        if reverse {
          action := agent.ActionFor("up");
        } else {
          action := agent.ActionFor("down");
        }
      } else {
        if reverse {
          action := agent.ActionFor("left");
        } else {
          action := agent.ActionFor("right");
        }
      }
    }
  }
}
