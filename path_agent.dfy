/** PathAgent (PathAgent.cpp with the declarations of PathAgent.h): an agent
    that walks a fixed cycle of offsets, built from a command string such as
    "n 3e 10*s". Each white-space separated token must match
    ([1-9][0-9]*)(\*?)[nswe]: the optional count repeats a unit step, or,
    with the star, scales one step. */
module PathAgents {
  import opened Wrappers
  import opened Decimal
  import opened Position
  import opened Entities

  /** INT_MAX of a 32-bit int: `step_val >> steps` stores it when the count
      is larger. */
  const INT_MAX: nat := 0x7FFF_FFFF

  // ---------------------------------------------------------------------
  // Tokens: `iss >> single_command` with white space skipped

  /** The end of the token starting at i: the first white space at or after i. */
  function TokenEnd(s: string, i: nat): (j: nat)
    requires i <= |s|
    ensures i <= j <= |s| && (j < |s| ==> IsSpace(s[j]))
    ensures forall k :: i <= k < j ==> !IsSpace(s[k])
    decreases |s| - i
  {
    if i < |s| && !IsSpace(s[i]) then TokenEnd(s, i + 1) else i
  }

  /** The tokens of s from position i on: maximal runs of non-blank characters. */
  function TokensFrom(s: string, i: nat): (r: seq<string>)
    requires i <= |s|
    ensures forall t :: t in r ==> |t| > 0 && forall k :: 0 <= k < |t| ==> !IsSpace(t[k])
    decreases |s| - i
  {
    var a := SkipSpaces(s, i);
    if a == |s| then []
    else
      var b := TokenEnd(s, a);
      [s[a..b]] + TokensFrom(s, b)
  }

  function Tokens(s: string): seq<string>
  {
    TokensFrom(s, 0)
  }

  /** A string of white space only holds no token. */
  lemma BlankHasNoTokens(s: string)
    requires AllSpaces(s)
    ensures Tokens(s) == []
  {
  }

  // ---------------------------------------------------------------------
  // One command

  predicate IsDirection(c: char) { c == 'n' || c == 's' || c == 'e' || c == 'w' }

  /** A token that matched the pattern: the count (1 when absent), whether
      the star was given, and the direction letter. */
  datatype Command = Command(steps: nat, multiply: bool, dir: char)

  function StepsOf(v: nat): (k: nat)
    ensures k <= INT_MAX && (v <= INT_MAX ==> k == v)
  {
    if v > INT_MAX then INT_MAX else v
  }

  /** std::regex_match of one token: None when the token does not match,
      which makes the constructor throw std::invalid_argument. */
  function ParseToken(t: string): (r: Option<Command>)
    ensures r.Some? ==> IsDirection(r.value.dir) && 1 <= r.value.steps <= INT_MAX
    ensures r.Some? ==> |t| > 0 && r.value.dir == t[|t| - 1]
    ensures r.Some? && r.value.multiply ==> |t| >= 3
  {
    if |t| == 0 || !IsDirection(t[|t| - 1]) then None
    else
      var p := t[..|t| - 1];
      if p == [] then Some(Command(1, false, t[|t| - 1]))
      else
        var star := p[|p| - 1] == '*';
        var digits := if star then p[..|p| - 1] else p;
        if digits != [] && AllDigits(digits) && digits[0] != '0'
        then
          assert ValueOf(digits) >= 1 by { LeadingDigitPositive(digits); }
          Some(Command(StepsOf(ValueOf(digits)), star, t[|t| - 1]))
        else None
  }

  /** A digit string that does not start with '0' has a positive value. */
  lemma {:induction false} LeadingDigitPositive(s: string)
    requires |s| > 0 && AllDigits(s) && s[0] != '0'
    ensures ValueOf(s) >= 1
  {
    PrefixValuePositive(s, |s|);
  }

  lemma {:induction false} PrefixValuePositive(s: string, j: nat)
    requires 1 <= j <= |s| && IsDigit(s[0]) && s[0] != '0'
    ensures DigitsValue(s, 0, j) >= 1
    decreases j
  {
    if j > 1 {
      PrefixValuePositive(s, j - 1);
    }
  }

  /** A bare direction letter is one unit step. */
  lemma ParseBare(d: char)
    requires IsDirection(d)
    ensures ParseToken([d]) == Some(Command(1, false, d))
  {
    assert [d][..0] == [];
  }

  /** "kd" is k unit steps and "k*d" one step scaled by k. */
  lemma ParseCounted(k: nat, d: char)
    requires 1 <= k <= INT_MAX && IsDirection(d)
    ensures ParseToken(NatToString(k) + [d]) == Some(Command(k, false, d))
    ensures ParseToken(NatToString(k) + ['*', d]) == Some(Command(k, true, d))
  {
    CountedUnit(k, d);
    CountedScaled(k, d);
  }

  lemma CountedUnit(k: nat, d: char)
    requires 1 <= k <= INT_MAX && IsDirection(d)
    ensures ParseToken(NatToString(k) + [d]) == Some(Command(k, false, d))
  {
    NatToStringValue(k);
    DropLast(NatToString(k), d);
  }

  lemma CountedScaled(k: nat, d: char)
    requires 1 <= k <= INT_MAX && IsDirection(d)
    ensures ParseToken(NatToString(k) + ['*', d]) == Some(Command(k, true, d))
  {
    NatToStringValue(k);
    var n := NatToString(k);
    assert n + ['*', d] == (n + ['*']) + [d];
    DropLast(n + ['*'], d);
    DropLast(n, '*');
  }

  lemma DropLast(a: string, c: char)
    ensures (a + [c])[..|a + [c]| - 1] == a
  {
    assert (a + [c])[..|a|] == a;
  }

  /** A star without a count, a zero count, or a token not ending in a
      direction letter does not match. */
  lemma ParseRejects(d: char, t: string)
    ensures ParseToken(['*', d]) == None
    ensures ParseToken(['0', d]) == None
    ensures |t| > 0 && !IsDirection(t[|t| - 1]) ==> ParseToken(t) == None
  {
    assert ['*', d][..1] == ['*'];
    assert ['*'][..0] == [];
    assert ['0', d][..1] == ['0'];
  }

  /** The offset of a step of dist in direction d from (0,0): north up, south
      down, east right, west left. */
  function UnitOffset(d: char, dist: int): (r: GridPosition)
    requires IsDirection(d)
    ensures r.Pos? && Abs(r.x) + Abs(r.y) == Abs(dist)
  {
    var base := Pos(0, 0);
    if d == 'n' then Above(base, dist)
    else if d == 's' then Below(base, dist)
    else if d == 'e' then ToRight(base, dist)
    else ToLeft(base, dist)
  }

  /** The offset as PathAgent.cpp writes it: 'e' uses ToLeft and 'w' ToRight. */
  function UnitOffsetAsWritten(d: char, dist: int): (r: GridPosition)
    requires IsDirection(d)
    ensures r.Pos? && Abs(r.x) + Abs(r.y) == Abs(dist)
  {
    var base := Pos(0, 0);
    if d == 'n' then Above(base, dist)
    else if d == 's' then Below(base, dist)
    else if d == 'e' then ToLeft(base, dist)
    else ToRight(base, dist)
  }

  /** As written, an "e" step moves towards smaller x, i.e. west, and a "w"
      step towards larger x: the two letters are swapped. */
  lemma EastWestSwappedAsWritten(dist: int)
    requires dist > 0
    ensures UnitOffsetAsWritten('e', dist).x < 0 && UnitOffsetAsWritten('w', dist).x > 0
    ensures UnitOffsetAsWritten('e', dist) == UnitOffset('w', dist)
    ensures UnitOffsetAsWritten('w', dist) == UnitOffset('e', dist)
    ensures UnitOffsetAsWritten('e', 1) == Pos(-1, 0)
  {
  }

  /** The corrected directions: each letter moves along one axis only,
      north and west towards smaller coordinates, south and east towards
      larger ones, and opposite letters give opposite offsets. */
  lemma UnitOffsetDirections(dist: int)
    ensures UnitOffset('n', dist) == Pos(0, -dist) && UnitOffset('s', dist) == Pos(0, dist)
    ensures UnitOffset('e', dist) == Pos(dist, 0) && UnitOffset('w', dist) == Pos(-dist, 0)
    ensures Shift(UnitOffset('e', dist), UnitOffset('w', dist).x, UnitOffset('w', dist).y) == Pos(0, 0)
    ensures Shift(UnitOffset('n', dist), UnitOffset('s', dist).x, UnitOffset('s', dist).y) == Pos(0, 0)
  {
  }

  /** Which direction switch the parser runs: the one PathAgent.cpp writes,
      with 'e' and 'w' exchanged, or the corrected one. */
  datatype Compass = AsWritten | Corrected

  function StepOffset(v: Compass, d: char, dist: int): GridPosition
    requires IsDirection(d)
  {
    if v.AsWritten? then UnitOffsetAsWritten(d, dist) else UnitOffset(d, dist)
  }

  /** n copies of one offset. */
  function Repeat(u: GridPosition, n: nat): (r: seq<GridPosition>)
    ensures |r| == n && forall k :: 0 <= k < n ==> r[k] == u
  {
    if n == 0 then [] else Repeat(u, n - 1) + [u]
  }

  /** The offsets one command contributes. */
  function CommandOffsets(c: Command, v: Compass): (r: seq<GridPosition>)
    requires IsDirection(c.dir)
    ensures c.multiply ==> r == [StepOffset(v, c.dir, c.steps)]
    ensures !c.multiply ==> |r| == c.steps && forall k :: 0 <= k < |r| ==> r[k] == StepOffset(v, c.dir, 1)
  {
    if c.multiply then [StepOffset(v, c.dir, c.steps)] else Repeat(StepOffset(v, c.dir, 1), c.steps)
  }

  /** The offsets of a token sequence, or None when some token does not match. */
  function OffsetsOf(tokens: seq<string>, v: Compass): Option<seq<GridPosition>>
    decreases |tokens|
  {
    if tokens == [] then Some([])
    else
      match OffsetsOf(tokens[..|tokens| - 1], v)
      case None => None
      case Some(o) =>
        match ParseToken(tokens[|tokens| - 1])
        case None => None
        case Some(c) => Some(o + CommandOffsets(c, v))
  }

  /** The position reflected in the vertical axis through (0,0). */
  function MirrorX(p: GridPosition): (r: GridPosition)
    ensures r.Pos? <==> p.Pos?
    ensures p.Pos? ==> r.x == -p.x && r.y == p.y
  {
    match p
    case Pos(x, y) => Pos(-x, y)
    case Invalid => Invalid
  }

  /** Path a is path b reflected left to right, offset by offset. */
  predicate Mirrored(a: seq<GridPosition>, b: seq<GridPosition>)
  {
    |a| == |b| && forall i :: 0 <= i < |a| ==> a[i] == MirrorX(b[i])
  }

  /** The written switch reflects every step of the corrected one: north
      and south agree, east and west trade places. */
  lemma StepMirrored(d: char, dist: int)
    requires IsDirection(d)
    ensures StepOffset(AsWritten, d, dist) == MirrorX(StepOffset(Corrected, d, dist))
    ensures d == 'n' || d == 's' ==> StepOffset(AsWritten, d, dist) == StepOffset(Corrected, d, dist)
  {
  }

  /** Both switches accept the same command strings, and the path the
      written one builds is the corrected path reflected left to right,
      offset by offset. */
  lemma {:induction false} OffsetsMirrored(tokens: seq<string>)
    ensures OffsetsOf(tokens, AsWritten).Some? <==> OffsetsOf(tokens, Corrected).Some?
    ensures OffsetsOf(tokens, Corrected).Some? ==>
      Mirrored(OffsetsOf(tokens, AsWritten).value, OffsetsOf(tokens, Corrected).value)
    decreases |tokens|
  {
    if tokens != [] {
      var init := tokens[..|tokens| - 1];
      OffsetsMirrored(init);
      var parsed := ParseToken(tokens[|tokens| - 1]);
      if OffsetsOf(init, Corrected).Some? && parsed.Some? {
        var oa, oc := OffsetsOf(init, AsWritten).value, OffsetsOf(init, Corrected).value;
        var ca, cc := CommandOffsets(parsed.value, AsWritten), CommandOffsets(parsed.value, Corrected);
        CommandMirrored(parsed.value);
        assert OffsetsOf(tokens, AsWritten) == Some(oa + ca);
        assert OffsetsOf(tokens, Corrected) == Some(oc + cc);
        forall i | 0 <= i < |oa| + |ca|
          ensures (oa + ca)[i] == MirrorX((oc + cc)[i])
        {
          if i >= |oa| {
            assert (oa + ca)[i] == ca[i - |oa|] && (oc + cc)[i] == cc[i - |oa|];
          }
        }
        assert Mirrored(oa + ca, oc + cc);
      }
    }
  }

  /** One command's offsets under the written switch are the reflected
      corrected ones. */
  lemma CommandMirrored(c: Command)
    requires IsDirection(c.dir)
    ensures Mirrored(CommandOffsets(c, AsWritten), CommandOffsets(c, Corrected))
  {
    if c.multiply {
      StepMirrored(c.dir, c.steps);
    } else {
      StepMirrored(c.dir, 1);
      RepeatMirrored(StepOffset(Corrected, c.dir, 1), c.steps);
    }
  }

  /** Repeating an offset and repeating its reflection give mirrored paths. */
  lemma RepeatMirrored(w: GridPosition, n: nat)
    ensures Mirrored(Repeat(MirrorX(w), n), Repeat(w, n))
  {
  }

  /** The command string is accepted exactly when every token matches. */
  lemma {:induction false} OffsetsOfAccepts(tokens: seq<string>, v: Compass)
    ensures OffsetsOf(tokens, v).Some? <==> forall t :: t in tokens ==> ParseToken(t).Some?
    decreases |tokens|
  {
    if tokens != [] {
      var init, last := tokens[..|tokens| - 1], tokens[|tokens| - 1];
      OffsetsOfAccepts(init, v);
      OffsetsOfSnoc(tokens, v);
      assert tokens == init + [last];
      assert forall t :: t in tokens <==> t in init || t == last;
    }
  }

  /** The last token is accepted after the others. */
  lemma OffsetsOfSnoc(tokens: seq<string>, v: Compass)
    requires tokens != []
    ensures OffsetsOf(tokens, v).Some? <==>
      OffsetsOf(tokens[..|tokens| - 1], v).Some? && ParseToken(tokens[|tokens| - 1]).Some?
  {
  }

  /** A single counted token yields k unit offsets, a starred one one scaled offset. */
  lemma OneTokenOffsets(k: nat, d: char, v: Compass)
    requires 1 <= k <= INT_MAX && IsDirection(d)
    ensures OffsetsOf([NatToString(k) + [d]], v) == Some(Repeat(StepOffset(v, d, 1), k))
    ensures OffsetsOf([NatToString(k) + ['*', d]], v) == Some([StepOffset(v, d, k)])
  {
    ParseCounted(k, d);
    assert [NatToString(k) + [d]][..0] == [];
    assert [NatToString(k) + ['*', d]][..0] == [];
    assert [] + Repeat(StepOffset(v, d, 1), k) == Repeat(StepOffset(v, d, 1), k);
    var starred := [NatToString(k) + ['*', d]];
    assert OffsetsOf(starred[..0], v) == Some([]);
    assert starred[|starred| - 1] == NatToString(k) + ['*', d];
    assert [] + [StepOffset(v, d, k)] == [StepOffset(v, d, k)];
  }

  /** The tokenising loop of the string constructor: the offsets of every
      token in order, or None where the constructor throws. */
  method ParseCommands(commands: string, v: Compass) returns (r: Option<seq<GridPosition>>)
    ensures r == OffsetsOf(Tokens(commands), v)
  {
    var tokens := Tokens(commands);
    var offsets: seq<GridPosition> := [];
    var i := 0;
    while i < |tokens|
      invariant 0 <= i <= |tokens|
      invariant OffsetsOf(tokens[..i], v) == Some(offsets)
    {
      var parsed := ParseToken(tokens[i]);
      OffsetsStep(tokens, i, v);
      if parsed.None? {
        RejectedPrefix(tokens, i + 1, v);
        return None;
      }
      offsets := PushCommand(offsets, parsed.value, v);
      i := i + 1;
    }
    assert tokens[..i] == tokens;
    return Some(offsets);
  }

  /** One matched token's switch case: push one scaled offset, or steps unit offsets. */
  method PushCommand(offsets: seq<GridPosition>, cmd: Command, v: Compass) returns (r: seq<GridPosition>)
    requires IsDirection(cmd.dir)
    ensures r == offsets + CommandOffsets(cmd, v)
  {
    r := offsets;
    if cmd.multiply {
      r := r + [StepOffset(v, cmd.dir, cmd.steps)];
    } else {
      var k := 0;
      while k < cmd.steps
        invariant 0 <= k <= cmd.steps
        invariant r == offsets + Repeat(StepOffset(v, cmd.dir, 1), k)
      {
        r := r + [StepOffset(v, cmd.dir, 1)];
        k := k + 1;
      }
    }
  }

  /** OffsetsOf on one more token. */
  lemma OffsetsStep(tokens: seq<string>, i: nat, v: Compass)
    requires i < |tokens|
    ensures OffsetsOf(tokens[..i + 1], v) ==
      match OffsetsOf(tokens[..i], v)
      case None => None
      case Some(o) =>
        match ParseToken(tokens[i])
        case None => None
        case Some(c) => Some(o + CommandOffsets(c, v))
  {
    assert tokens[..i + 1][..i] == tokens[..i];
  }

  /** Once a prefix is rejected, so is the whole token sequence. */
  lemma {:induction false} RejectedPrefix(tokens: seq<string>, n: nat, v: Compass)
    requires n <= |tokens| && OffsetsOf(tokens[..n], v).None?
    ensures OffsetsOf(tokens, v).None?
    decreases |tokens| - n
  {
    if n < |tokens| {
      assert tokens[..n + 1][..n] == tokens[..n];
      RejectedPrefix(tokens, n + 1, v);
    } else {
      assert tokens[..n] == tokens;
    }
  }

  // ---------------------------------------------------------------------
  // Cycling through the offsets

  /** The index after one SelectAction: the next one, wrapping to 0 at the end. */
  function NextIndex(i: nat, n: nat): (r: nat)
    ensures n > 0 ==> r < n
  {
    if i + 1 >= n then 0 else i + 1
  }

  /** The index after k calls. */
  function Advance(i: nat, n: nat, k: nat): nat
  {
    if k == 0 then i else NextIndex(Advance(i, n, k - 1), n)
  }

  /** Inside the path the index just counts up. */
  lemma {:induction false} AdvanceWithin(i: nat, n: nat, k: nat)
    requires i + k < n
    ensures Advance(i, n, k) == i + k
  {
    if k > 0 {
      AdvanceWithin(i, n, k - 1);
    }
  }

  /** k calls followed by j calls are k + j calls. */
  lemma {:induction false} AdvanceCompose(i: nat, n: nat, k: nat, j: nat)
    ensures Advance(Advance(i, n, k), n, j) == Advance(i, n, k + j)
  {
    if j > 0 {
      AdvanceCompose(i, n, k, j - 1);
    }
  }

  /** From index i the path ends after n - i calls and restarts at 0, and n
      calls bring the index back to where it was: the offsets are applied
      cyclically in order. */
  lemma AdvanceCycles(i: nat, n: nat)
    requires i < n
    ensures Advance(i, n, n - i) == 0
    ensures Advance(i, n, n) == i
  {
    AdvanceWithin(i, n, n - i - 1);
    assert Advance(i, n, n - i) == NextIndex(n - 1, n);
    AdvanceCompose(i, n, n - i, i);
    if i > 0 {
      AdvanceWithin(0, n, i);
    }
  }

  /** The size_t sum of two cell coordinates: `static_cast<size_t>` of each
      (two's complement for a negative value) and addition modulo 2^64. */
  function CellSum(a: int, b: int): (r: nat)
    ensures r < SIZE_MODULUS
    ensures 0 <= a + b < SIZE_MODULUS ==> r == a + b
  {
    (a + b) % SIZE_MODULUS
  }

  class PathAgent {
    const agent: Entity
    var offsets: seq<GridPosition>
    var index: nat

    /** The index stays inside the path once there is one. */
    predicate Valid()
      reads this
    {
      index == 0 || index < |offsets|
    }

    /** PathAgent(id, name, offsets). */
    constructor (id: nat, name: string, path: seq<GridPosition>)
      ensures Valid() && fresh(agent)
      ensures agent.kind == AgentKind && agent.id == id && agent.name == name
      ensures agent.position == Pos(0, 0) && agent.actionMap == map[]
      ensures offsets == path && index == 0
    {
      agent := new Entity(AgentKind, id, name);
      offsets := path;
      index := 0;
    }

    /** Initialize: the agent can act only through "move_self". */
    function Initialize(): (ok: bool)
      reads this, agent
      ensures ok <==> agent.HasAction("move_self") && agent.GetActionID("move_self") == agent.actionMap["move_self"]
    {
      agent.HasAction("move_self")
    }

    /** SelectAction: moves the agent by the current offset, advances the
        index cyclically and answers the id of "move_self". Indexing an empty
        path or casting a NaN coordinate is undefined in C++, hence the
        requires. */
    method SelectAction() returns (action: nat)
      requires Valid() && |offsets| > 0 && agent.position.Pos? && offsets[index].Pos?
      modifies this, agent
      ensures Valid() && offsets == old(offsets)
      ensures index == NextIndex(old(index), |offsets|) && index < |offsets|
      ensures agent.position ==
        Pos(CellSum(old(agent.position).x, old(offsets[index]).x), CellSum(old(agent.position).y, old(offsets[index]).y))
      ensures action == old(agent.GetActionID("move_self")) && agent.HasAction("move_self")
      ensures agent.actionMap ==
        if "move_self" in old(agent.actionMap) then old(agent.actionMap) else old(agent.actionMap)["move_self" := 0]
      ensures agent.Snapshot() == old(agent.Snapshot()).(position := agent.position, actionMap := agent.actionMap)
    {
      var offset := offsets[index];
      var pos := agent.position;
      agent.position := Pos(CellSum(pos.x, offset.x), CellSum(pos.y, offset.y));
      index := NextIndex(index, |offsets|);
      action := agent.ActionFor("move_self");
    }
  }

  /** PathAgent(id, name, commands): None where the constructor throws
      std::invalid_argument because a token does not match. With AsWritten
      it is the constructor of PathAgent.cpp, with Corrected the same
      constructor with 'e' and 'w' put right. */
  method NewFromCommands(id: nat, name: string, commands: string, v: Compass) returns (r: Option<PathAgent>)
    ensures r.Some? <==> OffsetsOf(Tokens(commands), v).Some?
    ensures r.Some? ==> fresh(r.value) && fresh(r.value.agent) && r.value.Valid()
    ensures r.Some? ==> r.value.offsets == OffsetsOf(Tokens(commands), v).value && r.value.index == 0
    ensures r.Some? ==> r.value.agent.id == id && r.value.agent.name == name
  {
    var parsed := ParseCommands(commands, v);
    if parsed.None? {
      return None;
    }
    var a := new PathAgent(id, name, parsed.value);
    return Some(a);
  }
}
