/** The data collectors of the game (ItemUseCollector.hpp,
    AgentInteractionCollector.hpp, DamageCollector.hpp): maps from a name to
    a count or to a list of damage amounts, updated in place. The unordered
    maps become Dafny maps; their unspecified iteration order becomes a
    nondeterministic choice of the next key. */
module Collectors {

  // ---------------------------------------------------------------------
  // Counting maps: `data[name]++` on an unordered_map<string, int>

  /** `data[name]++`: operator[] inserts a missing name with count 0, which is
      then incremented. */
  function Bump(data: map<string, int>, name: string): (r: map<string, int>)
    ensures name in r && r[name] == (if name in data then data[name] else 0) + 1
    ensures r.Keys == data.Keys + {name}
    ensures forall k :: k in data && k != name ==> r[k] == data[k]
  {
    data[name := (if name in data then data[name] else 0) + 1]
  }

  /** A new name adds one distinct name; a known name adds none. */
  lemma BumpSize(data: map<string, int>, name: string)
    ensures |Bump(data, name).Keys| == |data.Keys| + (if name in data then 0 else 1)
  {
    if name !in data {
      assert Bump(data, name).Keys == data.Keys + {name};
    } else {
      assert Bump(data, name).Keys == data.Keys;
    }
  }

  /** The map after recording each name of `names` in turn, from empty. */
  function CountAll(names: seq<string>): map<string, int>
  {
    if names == [] then map[] else Bump(CountAll(names[..|names| - 1]), names[|names| - 1])
  }

  /** How often name occurs in names. */
  function Occurrences(names: seq<string>, name: string): nat
  {
    if names == [] then 0
    else Occurrences(names[..|names| - 1], name) + (if names[|names| - 1] == name then 1 else 0)
  }

  /** After a run of recordings, a name is known exactly when it was recorded,
      and its count is the number of times it was. */
  lemma {:induction false} CountAllCounts(names: seq<string>, name: string)
    ensures name in CountAll(names) <==> name in names
    ensures name in CountAll(names) ==> CountAll(names)[name] == Occurrences(names, name)
    ensures name !in names ==> Occurrences(names, name) == 0
  {
    if names != [] {
      var init := names[..|names| - 1];
      CountAllCounts(init, name);
      assert names == init + [names[|names| - 1]];
      assert name in names <==> name in init || name == names[|names| - 1];
    }
  }

  /** ItemUseCollector: usage count per item name. */
  class ItemUseCollector {
    var usageData: map<string, int>

    constructor ()
      ensures usageData == map[]
    {
      usageData := map[];
    }

    /** GetNumberOfItems: the number of distinct item names recorded. */
    function GetNumberOfItems(): (n: nat)
      reads this
      ensures n == |usageData.Keys|
    {
      |usageData|
    }

    /** IncrementItemUsage: one more use of that item, the others unchanged. */
    method IncrementItemUsage(itemName: string)
      modifies this
      ensures usageData == Bump(old(usageData), itemName)
    {
      usageData := usageData[itemName := (if itemName in usageData then usageData[itemName] else 0) + 1];
    }

    /** GetMostFrequent: an item of maximal count, "" when nothing is recorded. */
    method GetMostFrequent() returns (name: string)
      ensures usageData == map[] ==> name == ""
      ensures usageData != map[] ==>
        name in usageData && forall k :: k in usageData ==> usageData[k] <= usageData[name]
    {
      name := Extreme(usageData, true);
    }

    /** GetLeastFrequent: an item of minimal count, "" when nothing is recorded. */
    method GetLeastFrequent() returns (name: string)
      ensures usageData == map[] ==> name == ""
      ensures usageData != map[] ==>
        name in usageData && forall k :: k in usageData ==> usageData[name] <= usageData[k]
    {
      name := Extreme(usageData, false);
    }
  }

  /** std::max_element (most) or std::min_element (!most) over the entries of
      an unordered map, compared by count; a later entry replaces the current
      one only when strictly better. The entries are visited in an order the
      map chooses. */
  method Extreme(data: map<string, int>, most: bool) returns (name: string)
    ensures data == map[] ==> name == ""
    ensures data != map[] ==>
      name in data && forall k :: k in data ==> if most then data[k] <= data[name] else data[name] <= data[k]
  {
    if data == map[] {
      return "";
    }
    var left := data.Keys;
    name :| name in left;
    left := left - {name};
    while left != {}
      invariant left <= data.Keys && name in data && name !in left
      invariant forall k :: k in data && k !in left ==>
        if most then data[k] <= data[name] else data[name] <= data[k]
      decreases left
    {
      var k :| k in left;
      if (most && data[name] < data[k]) || (!most && data[k] < data[name]) {
        name := k;
      }
      left := left - {k};
    }
  }

  /** AgentInteractionCollector: interaction count per agent name. */
  class AgentInteractionCollector {
    var interactionData: map<string, int>

    /** A new collector has recorded nothing. */
    constructor ()
      ensures interactionData == map[] && GetUniqueInteractions() == 0
    {
      interactionData := map[];
    }

    /** GetUniqueInteractions: the number of distinct agent names recorded. */
    function GetUniqueInteractions(): (n: nat)
      reads this
      ensures n == |interactionData.Keys|
    {
      |interactionData|
    }

    /** RecordInteraction: one more interaction with that agent, the other
        counts unchanged. */
    method RecordInteraction(agentName: string)
      modifies this
      ensures interactionData == Bump(old(interactionData), agentName)
    {
      interactionData := interactionData[agentName := (if agentName in interactionData then interactionData[agentName] else 0) + 1];
    }
  }

  // ---------------------------------------------------------------------
  // DamageCollector: unordered_map<string, vector<double>>

  /** `damageData[name].push_back(amount)`. */
  function Record(data: map<string, seq<real>>, name: string, amount: real): (r: map<string, seq<real>>)
    ensures name in r && r[name] == (if name in data then data[name] else []) + [amount]
    ensures r.Keys == data.Keys + {name}
    ensures forall k :: k in data && k != name ==> r[k] == data[k]
  {
    data[name := (if name in data then data[name] else []) + [amount]]
  }

  /** The map after a run of (name, amount) records, from empty. */
  function RecordAll(records: seq<(string, real)>): map<string, seq<real>>
  {
    if records == [] then map[]
    else
      var last := records[|records| - 1];
      Record(RecordAll(records[..|records| - 1]), last.0, last.1)
  }

  /** The amounts recorded for name, in order. */
  function AmountsOf(records: seq<(string, real)>, name: string): seq<real>
  {
    if records == [] then []
    else
      var last := records[|records| - 1];
      AmountsOf(records[..|records| - 1], name) + (if last.0 == name then [last.1] else [])
  }

  /** Each item's list holds exactly the amounts recorded for it, in order, so
      its length is the number of records made for that item; every list
      kept is non-empty. */
  lemma {:induction false} RecordAllAmounts(records: seq<(string, real)>, name: string)
    ensures name in RecordAll(records) <==> AmountsOf(records, name) != []
    ensures name in RecordAll(records) ==> RecordAll(records)[name] == AmountsOf(records, name)
  {
    if records != [] {
      RecordAllAmounts(records[..|records| - 1], name);
    }
  }

  function Sum(amounts: seq<real>): real
  {
    if amounts == [] then 0.0 else Sum(amounts[..|amounts| - 1]) + amounts[|amounts| - 1]
  }

  /** The least and the greatest of a non-empty list of amounts. */
  function Least(amounts: seq<real>): (m: real)
    requires amounts != []
    ensures m in amounts && forall i :: 0 <= i < |amounts| ==> m <= amounts[i]
  {
    if |amounts| == 1 then amounts[0]
    else
      var m := Least(amounts[..|amounts| - 1]);
      assert forall i :: 0 <= i < |amounts| - 1 ==> amounts[..|amounts| - 1][i] == amounts[i];
      if amounts[|amounts| - 1] < m then amounts[|amounts| - 1] else m
  }

  function Greatest(amounts: seq<real>): (m: real)
    requires amounts != []
    ensures m in amounts && forall i :: 0 <= i < |amounts| ==> amounts[i] <= m
  {
    if |amounts| == 1 then amounts[0]
    else
      var m := Greatest(amounts[..|amounts| - 1]);
      assert forall i :: 0 <= i < |amounts| - 1 ==> amounts[..|amounts| - 1][i] == amounts[i];
      if amounts[|amounts| - 1] > m then amounts[|amounts| - 1] else m
  }

  /** A sum of amounts each between lo and hi lies between |amounts| times
      each bound. */
  lemma {:induction false} SumBounds(amounts: seq<real>, lo: real, hi: real)
    requires forall i :: 0 <= i < |amounts| ==> lo <= amounts[i] <= hi
    ensures lo * |amounts| as real <= Sum(amounts) <= hi * |amounts| as real
  {
    if amounts != [] {
      var init := amounts[..|amounts| - 1];
      assert forall i :: 0 <= i < |init| ==> init[i] == amounts[i];
      SumBounds(init, lo, hi);
      var m := |init| as real;
      assert |amounts| as real == m + 1.0;
      assert lo * (m + 1.0) == lo * m + lo && hi * (m + 1.0) == hi * m + hi;
      assert Sum(amounts) == Sum(init) + amounts[|amounts| - 1];
    }
  }

  /** Whether every list in the map holds at least one amount: lists are only
      created by a first record. */
  ghost predicate NonEmptyLists(data: map<string, seq<real>>)
  {
    forall k :: k in data ==> data[k] != []
  }

  class DamageCollector {
    var damageData: map<string, seq<real>>

    ghost predicate Valid()
      reads this
    {
      NonEmptyLists(damageData)
    }

    constructor ()
      ensures Valid() && damageData == map[]
    {
      damageData := map[];
    }

    /** RecordDamageResult: the amount is appended to that item's list only. */
    method RecordDamageResult(itemName: string, damageAmt: real)
      requires Valid()
      modifies this
      ensures Valid()
      ensures damageData == Record(old(damageData), itemName, damageAmt)
    {
      var prior := if itemName in damageData then damageData[itemName] else [];
      damageData := damageData[itemName := prior + [damageAmt]];
    }

    /** GetDamageAmounts: the item's list, or an empty list for an unknown
        item. */
    function GetDamageAmounts(itemName: string): (r: seq<real>)
      reads this
      ensures itemName in damageData ==> r == damageData[itemName]
      ensures itemName !in damageData ==> r == []
    {
      if itemName in damageData then damageData[itemName] else []
    }

    /** CalculateAverageDamage: the mean of the item's amounts, -1 for an
        unknown item; the mean lies between the least and the greatest
        amount. */
    function CalculateAverageDamage(itemName: string): (r: real)
      reads this
      requires Valid()
      ensures itemName !in damageData ==> r == -1.0
      ensures itemName in damageData ==>
        r * |damageData[itemName]| as real == Sum(damageData[itemName]) &&
        Least(damageData[itemName]) <= r <= Greatest(damageData[itemName])
    {
      if itemName in damageData then Mean(damageData[itemName]) else -1.0
    }
  }

  /** std::accumulate of the amounts divided by their number. */
  function Mean(damages: seq<real>): (r: real)
    requires damages != []
    ensures r * |damages| as real == Sum(damages)
    ensures Least(damages) <= r <= Greatest(damages)
  {
    AverageWithin(damages, Least(damages), Greatest(damages));
    Quotient(Sum(damages), |damages| as real)
  }

  /** The average of amounts that all lie between two bounds lies between
      them too. */
  lemma AverageWithin(amounts: seq<real>, lo: real, hi: real)
    requires amounts != [] && forall i :: 0 <= i < |amounts| ==> lo <= amounts[i] <= hi
    ensures Quotient(Sum(amounts), |amounts| as real) * |amounts| as real == Sum(amounts)
    ensures lo <= Quotient(Sum(amounts), |amounts| as real) <= hi
  {
    SumBounds(amounts, lo, hi);
    QuotientBetween(Sum(amounts), |amounts| as real, lo, hi);
  }

  /** Real division by a positive number. */
  function Quotient(s: real, n: real): (q: real)
    requires n > 0.0
    ensures q * n == s
  {
    s / n
  }

  lemma QuotientBetween(s: real, n: real, lo: real, hi: real)
    requires n > 0.0 && lo * n <= s <= hi * n
    ensures lo <= Quotient(s, n) <= hi
  {
    var q := Quotient(s, n);
    MulMonotoneReal(q, lo, n);
    MulMonotoneReal(hi, q, n);
  }

  lemma MulMonotoneReal(a: real, b: real, n: real)
    requires n > 0.0
    ensures a < b ==> a * n < b * n
  {
  }
}
