/** The brute-force set-cover solver (in_class/SetCover/solve.cpp). A
    candidate solution is a strictly increasing vector of set ids; the
    candidates of one size are enumerated in order, the highest position
    changing slowest, and each is checked for covering the universe. Each
    bitset of the source is the set of its true bits. */
module SetCover {

  /** The number of bits in each bitset. */
  const MAX_ENTRY: nat := 1000

  /** Strictly increasing ids, each below cap. */
  predicate IsCombination(s: seq<nat>, cap: nat)
  {
    (forall i, j :: 0 <= i < j < |s| ==> s[i] < s[j]) &&
    (forall i :: 0 <= i < |s| ==> s[i] < cap)
  }

  /** The solution FirstSolution(k) builds: 0, 1, ..., k-1. */
  function First(k: nat): (s: seq<nat>)
    ensures |s| == k && forall i :: 0 <= i < k ==> s[i] == i
  {
    seq(k, i => i)
  }

  /** FirstSolution: [0, 1, ..., k-1], the least combination of size k. */
  method FirstSolution(solSize: nat) returns (sol: array<nat>)
    ensures fresh(sol) && sol[..] == First(solSize)
  {
    sol := new nat[solSize];
    for i := 0 to solSize
      invariant forall j :: 0 <= j < i ==> sol[j] == j
    {
      sol[i] := i;
    }
  }

  lemma FirstIsCombination(k: nat, cap: nat)
    requires k <= cap
    ensures IsCombination(First(k), cap)
  {
  }

  /** NextSolution(solution, pos) with roll-over value cap for the last
      position: the result flag and the solution afterwards. Position pos is
      incremented; when it reaches the value of the next position (cap for
      the last one) it is reset just above the previous position and the
      next position is incremented in turn; at the last position the flag is
      false. */
  function Next(s: seq<nat>, pos: nat, cap: nat): (r: (bool, seq<nat>))
    requires pos < |s|
    ensures |r.1| == |s|
    decreases |s| - pos
  {
    var c := if pos < |s| - 1 then s[pos + 1] else cap;
    var s1 := s[pos := s[pos] + 1];
    if s1[pos] >= c then
      if pos == |s| - 1 then (false, s1)
      else
        var low := if pos == 0 then 0 else s1[pos - 1] + 1;
        Next(s1[pos := low], pos + 1, cap)
    else (true, s1)
  }

  /** The solution read as a number in base cap, position pos the least
      significant digit. */
  function RankFrom(s: seq<nat>, pos: nat, cap: nat): nat
    decreases |s| - pos
  {
    if pos >= |s| then 0 else s[pos] + cap * RankFrom(s, pos + 1, cap)
  }

  function Pow(b: nat, e: nat): nat
  {
    if e == 0 then 1 else b * Pow(b, e - 1)
  }

  /** RankFrom reads only the positions from pos on. */
  lemma {:induction false} RankFromFrame(s: seq<nat>, t: seq<nat>, pos: nat, cap: nat)
    requires |s| == |t| && forall i :: pos <= i < |s| ==> s[i] == t[i]
    ensures RankFrom(s, pos, cap) == RankFrom(t, pos, cap)
    decreases |s| - pos
  {
    if pos < |s| {
      RankFromFrame(s, t, pos + 1, cap);
    }
  }

  /** A solution whose entries are below cap has a rank below cap^(|s| - pos). */
  lemma {:induction false} RankFromBound(s: seq<nat>, pos: nat, cap: nat)
    requires pos <= |s| && forall i :: pos <= i < |s| ==> s[i] < cap
    ensures RankFrom(s, pos, cap) < Pow(cap, |s| - pos)
    decreases |s| - pos
  {
    if pos < |s| {
      RankFromBound(s, pos + 1, cap);
      var r := RankFrom(s, pos + 1, cap);
      assert Pow(cap, |s| - pos) == cap * Pow(cap, |s| - (pos + 1));
      assert cap * r + cap <= cap * Pow(cap, |s| - (pos + 1)) by {
        MulAdd(cap, r, Pow(cap, |s| - (pos + 1)));
      }
    }
  }

  lemma MulAdd(c: nat, a: nat, b: nat)
    requires a < b
    ensures c * a + c <= c * b
  {
    var d := b - a;
    assert c * b == c * a + c * d;
    MulAtLeast(c, d);
  }

  lemma MulAtLeast(c: nat, d: nat)
    requires d >= 1
    ensures c * d >= c
  {
    assert c * d == c * (d - 1) + c;
  }

  /** NextSolution leaves the positions before pos untouched. */
  lemma {:induction false} NextPrefix(s: seq<nat>, pos: nat, cap: nat)
    requires pos < |s|
    ensures forall i :: 0 <= i < pos ==> Next(s, pos, cap).1[i] == s[i]
    decreases |s| - pos
  {
    var c := if pos < |s| - 1 then s[pos + 1] else cap;
    var s1 := s[pos := s[pos] + 1];
    if s1[pos] >= c && pos < |s| - 1 {
      var low := if pos == 0 then 0 else s1[pos - 1] + 1;
      var s2 := s1[pos := low];
      assert Next(s, pos, cap) == Next(s2, pos + 1, cap);
      NextPrefix(s2, pos + 1, cap);
    }
  }

  /** On a combination below cap, a true flag of NextSolution comes with a
      combination again, and a false flag leaves cap in the last position. */
  lemma {:induction false} NextSpec(s: seq<nat>, pos: nat, cap: nat)
    requires pos < |s| && IsCombination(s, cap)
    ensures Next(s, pos, cap).0 ==> IsCombination(Next(s, pos, cap).1, cap)
    ensures !Next(s, pos, cap).0 ==> Next(s, pos, cap).1[|s| - 1] == cap
    decreases |s| - pos
  {
    var c := if pos < |s| - 1 then s[pos + 1] else cap;
    var s1 := s[pos := s[pos] + 1];
    if s1[pos] >= c && pos < |s| - 1 {
      var low := if pos == 0 then 0 else s1[pos - 1] + 1;
      var s2 := s1[pos := low];
      assert IsCombination(s2, cap);
      assert Next(s, pos, cap) == Next(s2, pos + 1, cap);
      NextSpec(s2, pos + 1, cap);
    }
  }

  /** On a combination below cap, a true flag of NextSolution comes with a
      greater rank. */
  lemma {:induction false} NextRank(s: seq<nat>, pos: nat, cap: nat)
    requires pos < |s| && IsCombination(s, cap)
    ensures Next(s, pos, cap).0 ==> RankFrom(Next(s, pos, cap).1, pos, cap) > RankFrom(s, pos, cap)
    decreases |s| - pos
  {
    var c := if pos < |s| - 1 then s[pos + 1] else cap;
    var s1 := s[pos := s[pos] + 1];
    if s1[pos] >= c {
      if pos < |s| - 1 {
        var low := if pos == 0 then 0 else s1[pos - 1] + 1;
        var s2 := s1[pos := low];
        assert IsCombination(s2, cap);
        assert Next(s, pos, cap) == Next(s2, pos + 1, cap);
        NextRank(s2, pos + 1, cap);
        if Next(s2, pos + 1, cap).0 {
          RankFromFrame(s2, s, pos + 1, cap);
          RankCarry(s, Next(s2, pos + 1, cap).1, pos, cap);
        }
      }
    } else {
      assert Next(s, pos, cap) == (true, s1);
      RankBump(s, pos, cap);
    }
  }

  /** Raising the entry at pos raises the rank from pos. */
  lemma RankBump(s: seq<nat>, pos: nat, cap: nat)
    requires pos < |s|
    ensures RankFrom(s[pos := s[pos] + 1], pos, cap) > RankFrom(s, pos, cap)
  {
    RankFromFrame(s[pos := s[pos] + 1], s, pos + 1, cap);
  }

  /** A greater rank from pos + 1 outweighs any entry at pos below cap. */
  lemma RankCarry(s: seq<nat>, r: seq<nat>, pos: nat, cap: nat)
    requires pos + 1 < |s| == |r| && s[pos] < cap
    requires RankFrom(r, pos + 1, cap) > RankFrom(s, pos + 1, cap)
    ensures RankFrom(r, pos, cap) > RankFrom(s, pos, cap)
  {
    MulAdd(cap, RankFrom(s, pos + 1, cap), RankFrom(r, pos + 1, cap));
  }

  /** NextSolution, in place on the solution vector. */
  method NextSolution(solution: array<nat>, pos: nat, cap: nat) returns (more: bool)
    requires pos < solution.Length
    modifies solution
    ensures (more, solution[..]) == Next(old(solution[..]), pos, cap)
    decreases solution.Length - pos
  {
    var c := cap;
    if pos < solution.Length - 1 {
      c := solution[pos + 1];
    }
    solution[pos] := solution[pos] + 1;
    if solution[pos] >= c {
      if pos == solution.Length - 1 {
        return false;
      }
      if pos == 0 {
        solution[0] := 0;
      } else {
        solution[pos] := solution[pos - 1] + 1;
      }
      more := NextSolution(solution, pos + 1, cap);
      return;
    }
    more := true;
  }

  /** The union of the bitsets of the chosen ids. */
  function Union(bsets: seq<set<nat>>, sol: seq<nat>): set<nat>
    requires forall i :: 0 <= i < |sol| ==> sol[i] < |bsets|
  {
    if sol == [] then {} else Union(bsets, sol[..|sol| - 1]) + bsets[sol[|sol| - 1]]
  }

  /** A bit is in the union exactly when one of the chosen bitsets has it. */
  lemma {:induction false} UnionMembers(bsets: seq<set<nat>>, sol: seq<nat>, b: nat)
    requires forall i :: 0 <= i < |sol| ==> sol[i] < |bsets|
    ensures b in Union(bsets, sol) <==> Covered(bsets, sol, b)
  {
    if sol != [] {
      var init := sol[..|sol| - 1];
      UnionMembers(bsets, init, b);
      if b in Union(bsets, sol) && b !in bsets[sol[|sol| - 1]] {
        var i :| 0 <= i < |init| && b in bsets[init[i]];
        assert init[i] == sol[i];
      }
      if exists i :: 0 <= i < |sol| && b in bsets[sol[i]] {
        var i :| 0 <= i < |sol| && b in bsets[sol[i]];
        if i < |init| {
          assert init[i] == sol[i];
        }
      }
    }
  }

  /** The `result |= bsets[id]` loop of IsLegal. */
  method UnionOf(bsets: seq<set<nat>>, sol: seq<nat>) returns (result: set<nat>)
    requires forall i :: 0 <= i < |sol| ==> sol[i] < |bsets|
    ensures result == Union(bsets, sol)
  {
    result := {};
    for i := 0 to |sol|
      invariant result == Union(bsets, sol[..i])
    {
      assert sol[..i + 1][..i] == sol[..i];
      result := result + bsets[sol[i]];
    }
    assert sol[..|sol|] == sol;
  }

  /** Whether one of the chosen sets holds v. */
  predicate Covered(bsets: seq<set<nat>>, sol: seq<nat>, v: nat)
    requires forall i :: 0 <= i < |sol| ==> sol[i] < |bsets|
  {
    exists i :: 0 <= i < |sol| && v in bsets[sol[i]]
  }

  /** Whether the chosen sets cover the universe 0..U-1. */
  predicate Covers(bsets: seq<set<nat>>, sol: seq<nat>, universe: nat)
    requires forall i :: 0 <= i < |sol| ==> sol[i] < |bsets|
  {
    forall v: nat :: v < universe ==> Covered(bsets, sol, v)
  }

  /** Whether every value below n is covered. */
  predicate CoversBelow(bits: set<nat>, n: nat)
  {
    forall b: nat :: b < n ==> b in bits
  }

  /** IsLegal as written: `result.all()` asks for all MAX_ENTRY bits,
      whatever the size U of the universe. */
  method IsLegalAsWritten(bsets: seq<set<nat>>, sol: seq<nat>) returns (legal: bool)
    requires forall i :: 0 <= i < |sol| ==> sol[i] < |bsets|
    ensures legal <==> CoversBelow(Union(bsets, sol), MAX_ENTRY)
  {
    var result := UnionOf(bsets, sol);
    legal := forall b: nat :: b < MAX_ENTRY ==> b in result;
  }

  /** IsLegal as intended: every value of the universe 0..U-1 lies in one of
      the chosen sets. */
  method IsLegal(bsets: seq<set<nat>>, universe: nat, sol: seq<nat>) returns (legal: bool)
    requires forall i :: 0 <= i < |sol| ==> sol[i] < |bsets|
    ensures legal <==> Covers(bsets, sol, universe)
  {
    var result := UnionOf(bsets, sol);
    legal := forall b: nat :: b < universe ==> b in result;
    forall v: nat ensures v in result <==> Covered(bsets, sol, v) {
      UnionMembers(bsets, sol, v);
    }
  }

  /** With a one-element universe covered by the only set, the check as
      written still rejects the solution: bits 1 to 999 are unset. */
  lemma IsLegalAsWrittenRejectsCover()
    ensures var bsets := [{0}];
      CoversBelow(Union(bsets, [0]), 1) && !CoversBelow(Union(bsets, [0]), MAX_ENTRY)
  {
    var bsets: seq<set<nat>> := [{0}];
    assert Union(bsets, [0]) == {0} by {
      assert [0][..0] == [];
    }
    assert 1 !in Union(bsets, [0]);
  }

  /** With the roll-over value U of the source, a universe of 3 values and a
      single set, the second candidate of size 1 is set id 1, past the end
      of bsets. */
  lemma NextSolutionPassesLastSet()
    ensures var r := Next([0], 0, 3); r.0 && r.1 == [1] && r.1[0] >= |[{0}]|
  {
  }

  /** Candidates in enumeration order: the first is First(k), each next one
      is what NextSolution makes of the one before. */
  ghost predicate Chain(cands: seq<seq<nat>>, k: nat, cap: nat)
  {
    k >= 1 && cands != [] && cands[0] == First(k) &&
    (forall c :: c in cands ==> |c| == k) &&
    (forall i :: 0 <= i < |cands| - 1 ==> cands[i + 1] == Next(cands[i], 0, cap).1)
  }

  lemma ChainExtend(cands: seq<seq<nat>>, k: nat, cap: nat)
    requires Chain(cands, k, cap)
    ensures Chain(cands + [Next(cands[|cands| - 1], 0, cap).1], k, cap)
  {
    var ext := cands + [Next(cands[|cands| - 1], 0, cap).1];
    forall i | 0 <= i < |ext| - 1 ensures ext[i + 1] == Next(ext[i], 0, cap).1 {
      if i < |cands| - 1 {
        assert ext[i] == cands[i] && ext[i + 1] == cands[i + 1];
      }
    }
  }

  /** Solve with the roll-over value set to the number of sets: the first
      legal candidate in enumeration order, if any. `tried` lists the
      candidates checked and found illegal, in order; the enumeration stops
      when NextSolution reports the last candidate. */
  method Solve(bsets: seq<set<nat>>, universe: nat, solSize: nat)
    returns (found: bool, sol: seq<nat>, ghost tried: seq<seq<nat>>)
    requires 1 <= solSize <= |bsets|
    ensures IsCombination(sol, |bsets|) && |sol| == solSize
    ensures found ==> Covers(bsets, sol, universe)
    ensures forall c :: c in tried ==> |c| == solSize && IsCombination(c, |bsets|) && !Covers(bsets, c, universe)
    ensures found ==> Chain(tried + [sol], solSize, |bsets|)
    ensures !found ==> Chain(tried, solSize, |bsets|) && sol == tried[|tried| - 1] && !Next(sol, 0, |bsets|).0
  {
    var cap := |bsets|;
    var s := FirstSolution(solSize);
    FirstIsCombination(solSize, cap);
    tried := [];
    while true
      invariant s.Length == solSize && IsCombination(s[..], cap)
      invariant forall c :: c in tried ==> |c| == solSize && IsCombination(c, cap) && !Covers(bsets, c, universe)
      invariant Chain(tried + [s[..]], solSize, cap)
      decreases Pow(cap, solSize) - RankFrom(s[..], 0, cap)
    {
      RankFromBound(s[..], 0, cap);
      var legal := IsLegal(bsets, universe, s[..]);
      if legal {
        return true, s[..], tried;
      }
      var before := s[..];
      tried := tried + [before];
      NextSpec(before, 0, cap);
      NextRank(before, 0, cap);
      ChainExtend(tried, solSize, cap);
      var more := NextSolution(s, 0, cap);
      if !more {
        return false, before, tried;
      }
    }
  }
}
