/** CGPGenotype.hpp: the genotype of a cartesian genetic program. Its five
    parameters are written as a header "inputs,outputs,layers,nodes,back";
    the functional nodes are laid out layer by layer, and each node has one
    input-connection bit for every node of the layers it may read from. */
module CGP {
  import opened Wrappers
  import opened Decimal
  import opened Base64

  const HEADER_SEP: char := ','
  const HEADER_END: char := ';'

  /** CGPNodeGene without its default output, a double. */
  datatype NodeGene = NodeGene(inputConnections: string, functionIdx: nat)

  /** CGPParameters. */
  datatype Parameters = Parameters(
    numInputs: nat, numOutputs: nat, numLayers: nat, numNodesPerLayer: nat, layersBack: nat)

  datatype DecodeError =
    | BadField(error: ParseError)    // std::stoull threw
    | WrongFieldCount(count: nat)    // the header did not hold five fields
    | NoHeaderEnd                    // no ';' in the encoded genotype

  /** CGPParameters::GetFunctionalNodeCount. */
  function FunctionalNodeCount(p: Parameters): nat
  {
    p.numLayers * p.numNodesPerLayer + p.numOutputs
  }

  // ---------------------------------------------------------------------
  // The header

  function Fields(p: Parameters): (fs: seq<nat>)
    ensures |fs| == 5
  {
    [p.numInputs, p.numOutputs, p.numLayers, p.numNodesPerLayer, p.layersBack]
  }

  predicate FitsSizeT(p: Parameters)
  {
    forall k :: 0 <= k < 5 ==> Fields(p)[k] <= SIZE_MAX
  }

  /** Numbers written with std::to_string and separated by HEADER_SEP. */
  function Join(fs: seq<nat>): string
    requires |fs| >= 1
  {
    if |fs| == 1 then NatToString(fs[0])
    else NatToString(fs[0]) + [HEADER_SEP] + Join(fs[1..])
  }

  /** CGPGenotype::EncodeHeader. */
  function EncodeHeader(p: Parameters): string
  {
    Join(Fields(p))
  }

  /** std::string::find(c, i): the first c at or after i, |s| for npos. */
  function FindFrom(s: string, c: char, i: nat): (k: nat)
    requires i <= |s|
    ensures i <= k <= |s|
    ensures k < |s| ==> s[k] == c
    decreases |s| - i
  {
    if i == |s| then |s| else if s[i] == c then i else FindFrom(s, c, i + 1)
  }

  /** FindFrom finds the first c. */
  lemma {:induction false} FindFromFirst(s: string, c: char, i: nat)
    requires i <= |s|
    ensures forall j :: i <= j < FindFrom(s, c, i) ==> s[j] != c
    decreases |s| - i
  {
    if i < |s| && s[i] != c {
      FindFromFirst(s, c, i + 1);
    }
  }

  /** The loop of DecodeHeader from start position i, after the values
      `fields` were read: every piece up to the next separator, and the
      rest after the last one, goes through std::stoull, and the first
      piece it rejects ends the decoding. */
  function FieldsFrom(h: string, i: nat, fields: seq<nat>): Result<seq<nat>, ParseError>
    requires i <= |h|
    decreases |h| - i
  {
    var comma := FindFrom(h, HEADER_SEP, i);
    match Stoull(h[i..comma])
    case Err(e) => Err(e)
    case Ok(v) =>
      if comma == |h| then Ok(fields + [v]) else FieldsFrom(h, comma + 1, fields + [v])
  }

  /** The fields read from i on, after `fields`, are those of the whole
      header. */
  ghost predicate ReadSoFar(h: string, i: nat, fields: seq<nat>)
  {
    i <= |h| && FieldsFrom(h, i, fields) == FieldsFrom(h, 0, [])
  }

  lemma FieldsFromErr(h: string, i: nat, comma: nat, fields: seq<nat>, e: ParseError)
    requires ReadSoFar(h, i, fields) && comma == FindFrom(h, HEADER_SEP, i)
    requires Stoull(h[i..comma]) == Err(e)
    ensures FieldsFrom(h, 0, []) == Err(e)
  {
  }

  lemma FieldsFromNext(h: string, i: nat, comma: nat, fields: seq<nat>, v: nat)
    requires ReadSoFar(h, i, fields) && comma == FindFrom(h, HEADER_SEP, i) < |h|
    requires Stoull(h[i..comma]) == Ok(v)
    ensures ReadSoFar(h, comma + 1, fields + [v])
  {
  }

  lemma FieldsFromLast(h: string, i: nat, fields: seq<nat>, v: nat)
    requires ReadSoFar(h, i, fields) && FindFrom(h, HEADER_SEP, i) == |h|
    requires Stoull(h[i..]) == Ok(v)
    ensures FieldsFrom(h, 0, []) == Ok(fields + [v])
  {
    assert h[i..] == h[i..|h|];
  }

  /** What DecodeHeader stores, or the exception it throws. */
  function ReadHeader(h: string): Result<Parameters, DecodeError>
  {
    match FieldsFrom(h, 0, [])
    case Err(e) => Err(BadField(e))
    case Ok(fs) =>
      if |fs| != 5 then Err(WrongFieldCount(|fs|))
      else Ok(Parameters(fs[0], fs[1], fs[2], fs[3], fs[4]))
  }

  /** The number of c in s from i on. */
  function Occurrences(s: string, c: char, i: nat): nat
    requires i <= |s|
    decreases |s| - i
  {
    if i == |s| then 0 else (if s[i] == c then 1 else 0) + Occurrences(s, c, i + 1)
  }

  /** The separators from i on: the one that ends the first field, if
      any, and those after it. */
  lemma {:induction false} OccurrencesAfter(h: string, c: char, i: nat)
    requires i <= |h|
    ensures var k := FindFrom(h, c, i);
      Occurrences(h, c, i) == if k < |h| then 1 + Occurrences(h, c, k + 1) else 0
    decreases |h| - i
  {
    if i < |h| && h[i] != c {
      OccurrencesAfter(h, c, i + 1);
    }
  }

  /** Every separator after the start position opens one more field. */
  lemma {:induction false} FieldsFromCount(h: string, i: nat, fields: seq<nat>)
    requires i <= |h| && FieldsFrom(h, i, fields).Ok?
    ensures |FieldsFrom(h, i, fields).value| == |fields| + Occurrences(h, HEADER_SEP, i) + 1
    decreases |h| - i
  {
    var comma := FindFrom(h, HEADER_SEP, i);
    var v := FieldsFromHead(h, i, fields);
    OccurrencesAfter(h, HEADER_SEP, i);
    if comma < |h| {
      FieldsFromCount(h, comma + 1, fields + [v]);
    }
  }

  /** The first field read from i, when the whole read succeeds: the read
      ends with it or goes on after the separator that follows it. */
  lemma FieldsFromHead(h: string, i: nat, fields: seq<nat>) returns (v: nat)
    requires i <= |h| && FieldsFrom(h, i, fields).Ok?
    ensures FindFrom(h, HEADER_SEP, i) == |h| ==> FieldsFrom(h, i, fields) == Ok(fields + [v])
    ensures FindFrom(h, HEADER_SEP, i) < |h| ==>
      FieldsFrom(h, i, fields) == FieldsFrom(h, FindFrom(h, HEADER_SEP, i) + 1, fields + [v])
  {
    var comma := FindFrom(h, HEADER_SEP, i);
    v := Stoull(h[i..comma]).value;
  }

  /** DecodeHeader throws unless the header has exactly five fields: once
      every field is a number, it succeeds exactly when there are four
      separators. */
  lemma HeaderNeedsFiveFields(h: string)
    requires FieldsFrom(h, 0, []).Ok?
    ensures ReadHeader(h).Ok? <==> Occurrences(h, HEADER_SEP, 0) == 4
    ensures ReadHeader(h).Err? ==> ReadHeader(h).error == WrongFieldCount(Occurrences(h, HEADER_SEP, 0) + 1)
  {
    FieldsFromCount(h, 0, []);
  }

  /** FindFrom passes over characters other than c. */
  lemma {:induction false} FindFromSkips(s: string, c: char, i: nat, k: nat)
    requires i <= k <= |s|
    requires forall j :: i <= j < k ==> s[j] != c
    requires k == |s| || s[k] == c
    ensures FindFrom(s, c, i) == k
    decreases k - i
  {
    if i < k {
      FindFromSkips(s, c, i + 1, k);
    }
  }

  /** std::to_string writes a numeral that std::stoull reads back and
      that holds no separator. */
  lemma NumeralFacts(n: nat)
    requires n <= SIZE_MAX
    ensures Stoull(NatToString(n)) == Ok(n)
    ensures forall j :: 0 <= j < |NatToString(n)| ==> NatToString(n)[j] != HEADER_SEP && NatToString(n)[j] != HEADER_END
  {
    StoullOfNatToString(n, []);
    assert NatToString(n) + [] == NatToString(n);
    NatToStringValue(n);
  }

  /** One field read by DecodeHeader's loop. */
  lemma FieldStep(h: string, i: nat, k: nat, v: nat, acc: seq<nat>)
    requires i <= k <= |h| && FindFrom(h, HEADER_SEP, i) == k && Stoull(h[i..k]) == Ok(v)
    ensures k == |h| ==> FieldsFrom(h, i, acc) == Ok(acc + [v])
    ensures k < |h| ==> FieldsFrom(h, i, acc) == FieldsFrom(h, k + 1, acc + [v])
  {
  }

  /** A field that ends the header is read up to there. */
  lemma LastField(h: string, i: nat, d: string, n: nat, acc: seq<nat>)
    requires i + |d| == |h| && h[i..] == d
    requires Stoull(d) == Ok(n) && forall j :: 0 <= j < |d| ==> d[j] != HEADER_SEP
    ensures FieldsFrom(h, i, acc) == Ok(acc + [n])
  {
    assert h[i..i + |d|] == d;
    assert forall j :: i <= j < i + |d| ==> h[j] == d[j - i];
    FindFromSkips(h, HEADER_SEP, i, i + |d|);
    FieldStep(h, i, i + |d|, n, acc);
  }

  /** A field followed by a separator is read up to there, and the loop
      goes on after the separator. */
  lemma InnerField(h: string, i: nat, d: string, n: nat, acc: seq<nat>)
    requires i + |d| < |h| && h[i..i + |d|] == d && h[i + |d|] == HEADER_SEP
    requires Stoull(d) == Ok(n) && forall j :: 0 <= j < |d| ==> d[j] != HEADER_SEP
    ensures FieldsFrom(h, i, acc) == FieldsFrom(h, i + |d| + 1, acc + [n])
  {
    assert forall j :: i <= j < i + |d| ==> h[j] == d[j - i];
    FindFromSkips(h, HEADER_SEP, i, i + |d|);
    FieldStep(h, i, i + |d|, n, acc);
  }

  function Numerals(fs: seq<nat>): (ds: seq<string>)
    ensures |ds| == |fs| && forall k :: 0 <= k < |fs| ==> ds[k] == NatToString(fs[k])
  {
    seq(|fs|, k requires 0 <= k < |fs| => NatToString(fs[k]))
  }

  /** From i on, h holds ds[k..] separated by HEADER_SEP. */
  predicate Joined(h: string, i: nat, ds: seq<string>, k: nat)
    requires i <= |h| && k < |ds|
    decreases |ds| - k
  {
    if k == |ds| - 1 then h[i..] == ds[k]
    else
      i + |ds[k]| < |h| && h[i..i + |ds[k]|] == ds[k] && h[i + |ds[k]|] == HEADER_SEP &&
      Joined(h, i + |ds[k]| + 1, ds, k + 1)
  }

  lemma {:induction false} JoinedOfJoin(h: string, i: nat, fs: seq<nat>, k: nat)
    requires i <= |h| && k < |fs| && h[i..] == Join(fs[k..])
    ensures Joined(h, i, Numerals(fs), k)
    decreases |fs| - k
  {
    var d := NatToString(fs[k]);
    if k < |fs| - 1 {
      JoinHead(fs, k);
      SplitField(h, i, d, Join(fs[k + 1..]));
      JoinedOfJoin(h, i + |d| + 1, fs, k + 1);
    } else {
      assert fs[k..] == [fs[k]];
    }
  }

  /** A join of two or more numbers starts with the first and a separator. */
  lemma JoinHead(fs: seq<nat>, k: nat)
    requires k < |fs| - 1
    ensures Join(fs[k..]) == NatToString(fs[k]) + [HEADER_SEP] + Join(fs[k + 1..])
  {
    assert fs[k..][1..] == fs[k + 1..];
  }

  /** Where h holds d, a separator and the rest from i on. */
  lemma SplitField(h: string, i: nat, d: string, rest: string)
    requires i <= |h| && h[i..] == d + [HEADER_SEP] + rest
    ensures i + |d| < |h| && h[i..i + |d|] == d && h[i + |d|] == HEADER_SEP
    ensures h[i + |d| + 1..] == rest
  {
    assert h[i..i + |d|] == h[i..][..|d|];
    assert h[i + |d|] == h[i..][|d|];
    assert h[i + |d| + 1..] == h[i..][|d| + 1..];
  }

  /** The fields of a joined list are read back one by one. */
  lemma {:induction false} FieldsOfJoin(h: string, i: nat, fs: seq<nat>, k: nat, acc: seq<nat>)
    requires i <= |h| && k < |fs| && Joined(h, i, Numerals(fs), k)
    requires forall m :: 0 <= m < |fs| ==> fs[m] <= SIZE_MAX
    ensures FieldsFrom(h, i, acc) == Ok(acc + fs[k..])
    decreases |fs| - k
  {
    if k == |fs| - 1 {
      LastFieldAt(h, i, fs, k, acc);
      assert fs[k..] == [fs[k]];
    } else {
      var next := InnerFieldAt(h, i, fs, k, acc);
      FieldsOfJoin(h, next, fs, k + 1, acc + [fs[k]]);
      AppendHead(acc, fs, k);
    }
  }

  /** The last number of a joined list ends the reading. */
  lemma LastFieldAt(h: string, i: nat, fs: seq<nat>, k: nat, acc: seq<nat>)
    requires i <= |h| && k == |fs| - 1 && Joined(h, i, Numerals(fs), k) && fs[k] <= SIZE_MAX
    ensures FieldsFrom(h, i, acc) == Ok(acc + [fs[k]])
  {
    var d := NatToString(fs[k]);
    NumeralFacts(fs[k]);
    LastField(h, i, d, fs[k], acc);
  }

  /** A number followed by more of the joined list is read, and the reading
      goes on at the next one. */
  lemma InnerFieldAt(h: string, i: nat, fs: seq<nat>, k: nat, acc: seq<nat>) returns (next: nat)
    requires i <= |h| && k < |fs| - 1 && Joined(h, i, Numerals(fs), k) && fs[k] <= SIZE_MAX
    ensures next <= |h| && Joined(h, next, Numerals(fs), k + 1)
    ensures FieldsFrom(h, i, acc) == FieldsFrom(h, next, acc + [fs[k]])
  {
    var d := NatToString(fs[k]);
    NumeralFacts(fs[k]);
    InnerField(h, i, d, fs[k], acc);
    next := i + |d| + 1;
  }

  lemma AppendHead(acc: seq<nat>, fs: seq<nat>, k: nat)
    requires k < |fs|
    ensures acc + [fs[k]] + fs[k + 1..] == acc + fs[k..]
  {
    assert fs[k..] == [fs[k]] + fs[k + 1..];
  }

  /** DecodeHeader(EncodeHeader()) restores all five parameters. */
  lemma HeaderRoundTrip(p: Parameters)
    requires FitsSizeT(p)
    ensures ReadHeader(EncodeHeader(p)) == Ok(p)
  {
    var h := EncodeHeader(p);
    var fs := Fields(p);
    assert h[0..] == Join(fs[0..]) by {
      assert fs[0..] == fs;
    }
    JoinedOfJoin(h, 0, fs, 0);
    FieldsOfJoin(h, 0, fs, 0, []);
    assert [] + fs[0..] == fs;
  }

  /** A joined list holds digits and separators only. */
  lemma {:induction false} JoinChars(fs: seq<nat>)
    requires |fs| >= 1
    ensures forall j :: 0 <= j < |Join(fs)| ==> Join(fs)[j] == HEADER_SEP || IsDigit(Join(fs)[j])
    decreases |fs|
  {
    NatToStringValue(fs[0]);
    if |fs| > 1 {
      JoinChars(fs[1..]);
    }
  }

  /** The header Configure reads: the text before the first HEADER_END. */
  function ConfigureHeader(encoded: string): Result<Parameters, DecodeError>
  {
    var k := FindFrom(encoded, HEADER_END, 0);
    if k == |encoded| then Err(NoHeaderEnd) else ReadHeader(encoded[..k])
  }

  /** Configure throws when the input has no HEADER_END. */
  lemma ConfigureNeedsHeaderEnd(encoded: string)
    ensures ConfigureHeader(encoded) == Err(NoHeaderEnd) <==> forall j :: 0 <= j < |encoded| ==> encoded[j] != HEADER_END
  {
    FindFromFirst(encoded, HEADER_END, 0);
    if forall j :: 0 <= j < |encoded| ==> encoded[j] != HEADER_END {
      FindFromSkips(encoded, HEADER_END, 0, |encoded|);
    }
  }

  /** What Export writes, Configure reads back: the parameters of the
      header come through whatever node genes follow it. */
  lemma ExportHeaderRoundTrip(p: Parameters, genotype: string)
    requires FitsSizeT(p)
    ensures ConfigureHeader(EncodeHeader(p) + [HEADER_END] + genotype) == Ok(p)
  {
    var h := EncodeHeader(p);
    var s := h + [HEADER_END] + genotype;
    JoinChars(Fields(p));
    FindFromSkips(s, HEADER_END, 0, |h|);
    assert s[..|h|] == h;
    HeaderRoundTrip(p);
  }

  // ---------------------------------------------------------------------
  // The layout of the functional nodes

  function LayerSize(p: Parameters, i: nat): nat
  {
    if i == p.numLayers + 1 then p.numOutputs else p.numNodesPerLayer
  }

  /** The number of input connections of a node in layer i (layer 0 holds
      the inputs), as InitGenotype counts them. */
  function ConnectionCount(p: Parameters, i: nat): nat
    requires i >= 1
  {
    var validLayersBack := Min(p.layersBack, i);
    var count := validLayersBack * p.numNodesPerLayer;
    if i <= p.layersBack then
      assert count == (i - 1) * p.numNodesPerLayer + p.numNodesPerLayer;
      count - p.numNodesPerLayer + p.numInputs
    else count
  }

  /** A node may read every node of the layersBack layers before it; near
      the start fewer layers exist, and the input layer has numInputs
      nodes. */
  lemma ConnectionRule(p: Parameters, i: nat)
    requires i >= 1
    ensures i <= p.layersBack ==> ConnectionCount(p, i) == (i - 1) * p.numNodesPerLayer + p.numInputs
    ensures i > p.layersBack ==> ConnectionCount(p, i) == p.layersBack * p.numNodesPerLayer
  {
  }

  function LayerNode(p: Parameters, i: nat): NodeGene
    requires i >= 1
  {
    NodeGene(Zeros(ConnectionCount(p, i)), 0)
  }

  /** The nodes of layers 1 to k. */
  function Layers(p: Parameters, k: nat): seq<NodeGene>
  {
    if k == 0 then [] else Layers(p, k - 1) + seq(LayerSize(p, k), _ => LayerNode(p, k))
  }

  /** One more copy of x at the end of a run of copies. */
  lemma Repeat<T>(prefix: seq<T>, j: nat, x: T)
    ensures prefix + seq(j + 1, _ => x) == prefix + seq(j, _ => x) + [x]
  {
    assert seq(j + 1, _ => x) == seq(j, _ => x) + [x];
  }

  /** What InitGenotype builds. */
  function Layout(p: Parameters): seq<NodeGene>
  {
    Layers(p, p.numLayers + 1)
  }

  lemma {:induction false} LayersSize(p: Parameters, k: nat)
    requires k <= p.numLayers
    ensures |Layers(p, k)| == k * p.numNodesPerLayer
  {
    if k > 0 {
      LayersSize(p, k - 1);
      assert |Layers(p, k)| == |Layers(p, k - 1)| + p.numNodesPerLayer;
      MulPred(k, p.numNodesPerLayer);
    }
  }

  /** InitGenotype leaves GetFunctionalNodeCount nodes, the count Configure
      asserts. */
  lemma LayoutSize(p: Parameters)
    ensures |Layout(p)| == FunctionalNodeCount(p)
  {
    LayersSize(p, p.numLayers);
  }

  /** Every node InitGenotype builds is unconnected, with function 0. */
  lemma {:induction false} LayersUnconnected(p: Parameters, k: nat)
    ensures forall n :: n in Layers(p, k) ==> AllZero(n.inputConnections) && n.functionIdx == 0
  {
    if k > 0 {
      LayersUnconnected(p, k - 1);
    }
  }

  /** The nodes of layer i sit after those of the layers before it, and
      each has ConnectionCount(p, i) connections. */
  lemma {:induction false} LayersPlacement(p: Parameters, k: nat, i: nat, j: nat)
    requires 1 <= i <= k && j < LayerSize(p, i)
    ensures |Layers(p, i - 1)| + j < |Layers(p, k)|
    ensures Layers(p, k)[|Layers(p, i - 1)| + j] == LayerNode(p, i)
  {
    if i < k {
      LayersPlacement(p, k - 1, i, j);
    }
  }

  // ---------------------------------------------------------------------
  // Counting connections

  function Ones(s: string): (n: nat)
    ensures n <= |s|
  {
    if s == [] then 0 else Ones(s[..|s| - 1]) + (if s[|s| - 1] == '1' then 1 else 0)
  }

  function PossibleConnections(nodes: seq<NodeGene>): nat
  {
    if nodes == [] then 0
    else PossibleConnections(nodes[..|nodes| - 1]) + |nodes[|nodes| - 1].inputConnections|
  }

  function Connections(nodes: seq<NodeGene>): nat
  {
    if nodes == [] then 0
    else Connections(nodes[..|nodes| - 1]) + Ones(nodes[|nodes| - 1].inputConnections)
  }

  /** GetNumConnections() <= GetNumPossibleConnections(). */
  lemma {:induction false} ConnectionsBound(nodes: seq<NodeGene>)
    ensures Connections(nodes) <= PossibleConnections(nodes)
  {
    if nodes != [] {
      ConnectionsBound(nodes[..|nodes| - 1]);
    }
  }

  predicate Unconnected(nodes: seq<NodeGene>)
  {
    forall i, j :: 0 <= i < |nodes| && 0 <= j < |nodes[i].inputConnections| ==> nodes[i].inputConnections[j] == '0'
  }

  lemma {:induction false} OnesOfZeros(s: string)
    requires AllZero(s)
    ensures Ones(s) == 0
  {
    if s != [] {
      OnesOfZeros(s[..|s| - 1]);
    }
  }

  lemma {:induction false} OnesOfBinary(s: string)
    requires IsBinary(s) && !AllZero(s)
    ensures Ones(s) > 0
  {
    var t := s[..|s| - 1];
    if s[|s| - 1] != '1' {
      assert forall k :: 0 <= k < |s| - 1 ==> s[k] == t[k];
      assert !AllZero(t);
      OnesOfBinary(t);
    }
  }

  /** For nodes whose connections are bits, HasInputConnections agrees
      with GetNumConnections() > 0. */
  lemma {:induction false} ConnectedIffOnes(nodes: seq<NodeGene>)
    requires forall i :: 0 <= i < |nodes| ==> IsBinary(nodes[i].inputConnections)
    ensures Connections(nodes) == 0 <==> Unconnected(nodes)
  {
    if nodes != [] {
      var rest := nodes[..|nodes| - 1];
      var last := nodes[|nodes| - 1].inputConnections;
      ConnectedIffOnes(rest);
      if AllZero(last) {
        OnesOfZeros(last);
      } else {
        OnesOfBinary(last);
      }
      assert Unconnected(nodes) <==> Unconnected(rest) && AllZero(last) by {
        if Unconnected(rest) && AllZero(last) {
          forall i, j | 0 <= i < |nodes| && 0 <= j < |nodes[i].inputConnections|
            ensures nodes[i].inputConnections[j] == '0'
          {
            if i < |nodes| - 1 {
              assert nodes[i] == rest[i];
            }
          }
        }
        if Unconnected(nodes) {
          assert forall i :: 0 <= i < |rest| ==> rest[i] == nodes[i];
        }
      }
    }
  }

  /** A freshly laid out genotype has no connection. */
  lemma LayoutUnconnected(p: Parameters)
    ensures Unconnected(Layout(p)) && Connections(Layout(p)) == 0
  {
    var nodes := Layout(p);
    LayersUnconnected(p, p.numLayers + 1);
    assert forall i :: 0 <= i < |nodes| ==> nodes[i] in nodes;
    ConnectedIffOnes(nodes);
  }

  // ---------------------------------------------------------------------
  // Input connections in DecodeGenotype

  /** The input-connection step of DecodeGenotype as written: the bits
      B64ToB2 returns are padded on the left with zeros up to the node's
      connection count; when they are longer, the assert that guards the
      padding fails (None). */
  function RestoreConnectionsAsWritten(b64: string, size: nat): Option<string>
  {
    var b2 := ToBits(b64);
    if |b2| > size then None else Some(Zeros(size - |b2|) + b2)
  }

  /** A node without input connections is exported as "0", which B64ToB2
      turns into one bit: more than the node has room for. */
  lemma EmptyConnectionsRejected()
    ensures FromBits([]) == Some("0")
    ensures RestoreConnectionsAsWritten("0", 0) == None
  {
    ZeroRoundTrip();
  }

  /** The step with zero-connection nodes handled: an encoding of all
      zeros fits any node. */
  function RestoreConnections(b64: string, size: nat): (r: Option<string>)
    ensures r.Some? ==> |r.value| == size
  {
    var b2 := ToBits(b64);
    if size == 0 && AllZero(b2) then Some([])
    else if |b2| > size then None
    else Some(Zeros(size - |b2|) + b2)
  }

  /** Every node's connections survive B2ToB64 and the restoring step. */
  lemma ConnectionsRoundTrip(b: string)
    requires IsBinary(b)
    ensures FromBits(b).Some? && RestoreConnections(FromBits(b).value, |b|) == Some(b)
  {
    if b == [] {
      ZeroRoundTrip();
    } else {
      BitsRoundTrip(b);
    }
  }

  // ---------------------------------------------------------------------
  // The genotype

  /** The loop of CGPGenotype::DecodeHeader: each field up to the next
      HEADER_SEP, and the last one up to the end, is read with std::stoull;
      the first field that fails stops the reading. */
  method SplitHeader(header: string) returns (r: Result<seq<nat>, ParseError>)
    ensures r == FieldsFrom(header, 0, [])
  {
    var headerParts: seq<nat> := [];
    var startPos := 0;
    var commaPos := FindFrom(header, HEADER_SEP, startPos);
    while commaPos != |header|
      invariant startPos <= commaPos <= |header|
      invariant commaPos == FindFrom(header, HEADER_SEP, startPos)
      invariant ReadSoFar(header, startPos, headerParts)
      decreases |header| - startPos
    {
      var part := Stoull(header[startPos..commaPos]);
      if part.Err? {
        FieldsFromErr(header, startPos, commaPos, headerParts, part.error);
        return Err(part.error);
      }
      FieldsFromNext(header, startPos, commaPos, headerParts, part.value);
      headerParts, startPos := headerParts + [part.value], commaPos + 1;
      commaPos := FindFrom(header, HEADER_SEP, startPos);
    }
    var last := Stoull(header[startPos..]);
    if last.Err? {
      assert header[startPos..] == header[startPos..commaPos];
      FieldsFromErr(header, startPos, commaPos, headerParts, last.error);
      return Err(last.error);
    }
    FieldsFromLast(header, startPos, headerParts, last.value);
    return Ok(headerParts + [last.value]);
  }

  class Genotype {
    var params: Parameters
    var nodes: seq<NodeGene>

    /** CGPGenotype(const CGPParameters &). */
    constructor (parameters: Parameters)
      ensures params == parameters && nodes == Layout(parameters)
    {
      params := parameters;
      nodes := [];
      new;
      InitGenotype();
    }

    /** CGPGenotype::InitGenotype: one node per slot of layers 1 to
        numLayers + 1, the last being the output layer. */
    method InitGenotype()
      modifies this
      ensures params == old(params) && nodes == Layout(params)
    {
      nodes := [];
      var p := params;
      var i := 1;
      while i <= p.numLayers + 1
        invariant 1 <= i <= p.numLayers + 2
        invariant params == p && nodes == Layers(p, i - 1)
      {
        var layerSize := if i == p.numLayers + 1 then p.numOutputs else p.numNodesPerLayer;
        var j := 0;
        while j < layerSize
          invariant j <= layerSize
          invariant params == p && nodes == Layers(p, i - 1) + seq(j, _ => LayerNode(p, i))
        {
          var validLayersBack := Min(params.layersBack, i);
          var numInputConnections := validLayersBack * params.numNodesPerLayer;
          if i <= params.layersBack {
            assert numInputConnections == (i - 1) * params.numNodesPerLayer + params.numNodesPerLayer by {
              MulPred(i, params.numNodesPerLayer);
            }
            numInputConnections := numInputConnections - params.numNodesPerLayer;
            numInputConnections := numInputConnections + params.numInputs;
          }
          assert numInputConnections == ConnectionCount(p, i);
          Repeat(Layers(p, i - 1), j, LayerNode(p, i));
          nodes := nodes + [NodeGene(Zeros(numInputConnections), 0)];
          j := j + 1;
        }
        i := i + 1;
      }
    }

    /** CGPGenotype::DecodeHeader: the parameters change only when every
        field is a number and there are five of them. */
    method DecodeHeader(header: string) returns (err: Option<DecodeError>)
      modifies this
      ensures nodes == old(nodes)
      ensures ReadHeader(header).Ok? ==> err == None && params == ReadHeader(header).value
      ensures ReadHeader(header).Err? ==> err == Some(ReadHeader(header).error) && params == old(params)
    {
      var parts := SplitHeader(header);
      if parts.Err? {
        return Some(BadField(parts.error));
      }
      var headerParts := parts.value;
      if |headerParts| != 5 {
        return Some(WrongFieldCount(|headerParts|));
      }
      params := Parameters(headerParts[0], headerParts[1], headerParts[2], headerParts[3], headerParts[4]);
      return None;
    }

    /** CGPGenotype::Configure up to InitGenotype: the header before the
        first HEADER_END is decoded and the nodes are laid out afresh. */
    method Configure(encoded: string) returns (err: Option<DecodeError>)
      modifies this
      ensures ConfigureHeader(encoded).Ok? ==>
        err == None && params == ConfigureHeader(encoded).value && nodes == Layout(params)
      ensures ConfigureHeader(encoded).Err? ==>
        err == Some(ConfigureHeader(encoded).error) && params == old(params) && nodes == old(nodes)
    {
      var newlinePos := FindFrom(encoded, HEADER_END, 0);
      if newlinePos == |encoded| {
        return Some(NoHeaderEnd);
      }
      err := DecodeHeader(encoded[..newlinePos]);
      if err.Some? {
        return;
      }
      InitGenotype();
      LayoutSize(params);
    }

    /** CGPGenotype::GetNumPossibleConnections. */
    method GetNumPossibleConnections() returns (numConnections: nat)
      ensures numConnections == PossibleConnections(nodes)
    {
      numConnections := 0;
      var k := 0;
      while k < |nodes|
        invariant k <= |nodes| && numConnections == PossibleConnections(nodes[..k])
      {
        assert nodes[..k + 1][..k] == nodes[..k];
        numConnections := numConnections + |nodes[k].inputConnections|;
        k := k + 1;
      }
      assert nodes[..k] == nodes;
    }

    /** CGPGenotype::GetNumConnections: the '1' characters of all nodes. */
    method GetNumConnections() returns (numConnections: nat)
      ensures numConnections == Connections(nodes)
    {
      numConnections := 0;
      var k := 0;
      while k < |nodes|
        invariant k <= |nodes| && numConnections == Connections(nodes[..k])
      {
        assert nodes[..k + 1][..k] == nodes[..k];
        var con := nodes[k].inputConnections;
        var before := numConnections;
        var c := 0;
        while c < |con|
          invariant c <= |con| && numConnections == before + Ones(con[..c])
        {
          assert con[..c + 1][..c] == con[..c];
          if con[c] == '1' {
            numConnections := numConnections + 1;
          }
          c := c + 1;
        }
        assert con[..c] == con;
        k := k + 1;
      }
      assert nodes[..k] == nodes;
    }

    /** CGPGenotype::HasInputConnections: some connection is not '0'. */
    method HasInputConnections() returns (b: bool)
      ensures b <==> !Unconnected(nodes)
    {
      var k := 0;
      while k < |nodes|
        invariant k <= |nodes| && Unconnected(nodes[..k])
      {
        var con := nodes[k].inputConnections;
        var c := 0;
        while c < |con|
          invariant c <= |con| && forall j :: 0 <= j < c ==> con[j] == '0'
        {
          if con[c] != '0' {
            return true;
          }
          c := c + 1;
        }
        assert forall i :: 0 <= i < k ==> nodes[..k + 1][i] == nodes[..k][i];
        k := k + 1;
      }
      assert nodes[..k] == nodes;
      return false;
    }
  }
}
