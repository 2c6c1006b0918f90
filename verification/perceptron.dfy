/**
 The input-node state machine of the interactive perceptron diagram
 (perceptron-diagram.tsx), apart from its rendering, animation and timers:
 the input count with its add, remove, long-press and revert transitions,
 the node list and container height derived from the count, and the names of
 the weight labels drawn on the input edges.
 */
module Perceptron {

  import opened Options
  import Text

  /** `MAX_INPUTS`: the most input nodes, bias included, that are drawn. */
  const MaxInputs: int := 7

  /** The count that revert returns to; up to it the container needs no extra height. */
  const BaseInputs: int := 3

  // -------------------------------------------------------- decimal numerals

  predicate IsDigit(c: char) {
    '0' <= c <= '9'
  }

  predicate AllDigits(s: string) {
    forall k :: 0 <= k < |s| ==> IsDigit(s[k])
  }

  function DigitChar(d: nat): char
    requires d < 10
  {
    ('0' as int + d) as char
  }

  function DigitValue(c: char): nat
    requires IsDigit(c)
  {
    c as int - '0' as int
  }

  /** A natural number written in decimal, as a template literal writes it:
      a single digit below 10, and no leading zero from 10 up. */
  function DecimalString(n: nat): (s: string)
    ensures |s| >= 1 && AllDigits(s)
    ensures |s| == 1 <==> n < 10
    ensures n >= 10 ==> s[0] != '0'
    decreases n
  {
    if n < 10 then [DigitChar(n)] else DecimalString(n / 10) + [DigitChar(n % 10)]
  }

  /** Any integer written in decimal. */
  function IntString(n: int): string {
    if n < 0 then "-" + DecimalString(-n) else DecimalString(n)
  }

  /** The value of a run of decimal digits. */
  function DigitsValue(s: string): nat
    requires AllDigits(s)
    decreases |s|
  {
    if |s| == 0 then 0 else DigitsValue(s[..|s| - 1]) * 10 + DigitValue(s[|s| - 1])
  }

  /** The length of the run of digits that starts `s`. */
  function LeadingDigits(s: string): (k: nat)
    ensures k <= |s| && AllDigits(s[..k])
    ensures k < |s| ==> !IsDigit(s[k])
    decreases |s|
  {
    if |s| == 0 || !IsDigit(s[0]) then 0
    else
      var k := 1 + LeadingDigits(s[1..]);
      assert s[..k] == [s[0]] + s[1..][..k - 1];
      k
  }

  /** `parseInt(s)` for text that starts with a digit or with no number at
      all: the value of the leading digits, or None for NaN, which happens
      exactly when `s` does not start with a digit. */
  function ParseInt(s: string): (v: Option<nat>)
    ensures v.None? <==> |s| == 0 || !IsDigit(s[0])
  {
    var k := LeadingDigits(s);
    if k == 0 then None else Some(DigitsValue(s[..k]))
  }

  lemma {:induction false} DigitsOfDecimal(n: nat)
    ensures DigitsValue(DecimalString(n)) == n
    decreases n
  {
    var s := DecimalString(n);
    if n >= 10 {
      DigitsOfDecimal(n / 10);
      assert s[..|s| - 1] == DecimalString(n / 10);
    }
  }

  /** Printing a number and parsing it back gives the number. */
  lemma ParseDecimal(n: nat)
    ensures ParseInt(DecimalString(n)) == Some(n)
  {
    var s := DecimalString(n);
    DigitsOfDecimal(n);
    assert s[..|s|] == s;
  }

  /** Distinct numbers print differently. */
  lemma DecimalInjective(a: nat, b: nat)
    ensures DecimalString(a) == DecimalString(b) <==> a == b
  {
    DigitsOfDecimal(a);
    DigitsOfDecimal(b);
  }

  // ------------------------------------------------------------------- nodes

  datatype Node = Node(id: string, text: string, color: string)

  const Bias: Node := Node("bias", "1", "bg-green-200")

  /** The placeholder node for "more inputs", labelled with a subscript m. */
  const Xm: Node := Node("xm", "x\U{2098}", "bg-blue-200")

  function XNode(i: nat): Node {
    Node("x" + DecimalString(i), "x" + DecimalString(i), "bg-blue-200")
  }

  /** `Math.min(inputCount, MAX_INPUTS) - 1`, the number of `x` nodes; a
      negative length is clamped to 0, as `Array.from` clamps it. */
  function XCount(count: int): (k: nat)
    ensures k <= MaxInputs - 1
    ensures 1 <= count <= MaxInputs ==> k == count - 1
    ensures count >= MaxInputs ==> k == MaxInputs - 1
    ensures count <= 1 ==> k == 0
  {
    var m := if count < MaxInputs then count else MaxInputs;
    if m - 1 < 0 then 0 else m - 1
  }

  function XNodes(k: nat): seq<Node> {
    seq(k, i requires 0 <= i < k => XNode(i + 1))
  }

  /** `inputNodes`: bias, then x1..xk, then xm while the count is at most 3.
      Bias comes first, and at least two and at most MAX_INPUTS nodes are drawn. */
  function InputNodes(count: int): (ns: seq<Node>)
    ensures 2 <= |ns| <= MaxInputs
    ensures ns[0] == Bias
  {
    [Bias] + XNodes(XCount(count)) + (if count <= BaseInputs then [Xm] else [])
  }

  function Ids(ns: seq<Node>): seq<string> {
    seq(|ns|, i requires 0 <= i < |ns| => ns[i].id)
  }

  predicate DistinctIds(ns: seq<Node>) {
    forall i, j :: 0 <= i < j < |ns| ==> ns[i].id != ns[j].id
  }

  lemma XIdDiffers(i: nat, j: nat)
    ensures XNode(i).id != Bias.id && XNode(i).id != Xm.id
    ensures i != j ==> XNode(i).id != XNode(j).id
  {
    var s := XNode(i).id;
    assert s[0] == 'x' && IsDigit(s[1]);
    if i != j {
      DecimalInjective(i, j);
      assert XNode(j).id == "x" + DecimalString(j);
      assert s[1..] == DecimalString(i) && XNode(j).id[1..] == DecimalString(j);
    }
  }

  /**
   The node list: bias first, then x1..xk in order with k = min(count, 7) - 1
   (never negative), then xm exactly when the count is at most 3. Node ids are
   pairwise distinct, as the list's rendering keys must be.
   */
  lemma InputNodesShape(count: int)
    ensures |InputNodes(count)| == 1 + XCount(count) + (if count <= BaseInputs then 1 else 0)
    ensures XCount(count) <= MaxInputs - 1
    ensures 1 <= count <= MaxInputs ==> XCount(count) == count - 1
    ensures InputNodes(count)[0] == Bias
    ensures forall i :: 1 <= i <= XCount(count) ==> InputNodes(count)[i].id == "x" + DecimalString(i)
    ensures InputNodes(count)[|InputNodes(count)| - 1].id == "xm" <==> count <= BaseInputs
    ensures DistinctIds(InputNodes(count))
  {
    var ns := InputNodes(count);
    var k := XCount(count);
    forall i | 1 <= i <= k
      ensures ns[i] == XNode(i)
    {
      assert ns[i] == XNodes(k)[i - 1];
    }
    if count > BaseInputs {
      assert k >= 1;
      XIdDiffers(k, k);
      assert ns[|ns| - 1] == XNode(k);
    }
    forall i, j | 0 <= i < j < |ns|
      ensures ns[i].id != ns[j].id
    {
      if j <= k {
        XIdDiffers(j, i);
        if i > 0 {
          XIdDiffers(i, j);
        }
      } else {
        assert ns[j] == Xm;
        if i > 0 {
          XIdDiffers(i, i);
        }
      }
    }
  }

  // ---------------------------------------------------------------- geometry

  /** `getContainerHeight`: 300 px plus 50 px per input beyond the third. It
      is a whole number of 50 px steps above 300, and exactly 300 up to 3 inputs. */
  function ContainerHeight(count: int): (h: int)
    ensures h >= 300 && (h - 300) % 50 == 0
    ensures h == 300 <==> count <= BaseInputs
  {
    var extra := if count - BaseInputs > 0 then count - BaseInputs else 0;
    300 + extra * 50
  }

  /** The height never drops below 300 and grows with the count; between 3
      and 7 inputs it is 50 px per drawn `x` node beyond the second. */
  lemma ContainerHeightMonotone(a: int, b: int)
    requires a <= b
    ensures 300 <= ContainerHeight(a) <= ContainerHeight(b)
    ensures BaseInputs <= a <= MaxInputs ==> ContainerHeight(a) == 300 + 50 * (XCount(a) - 2)
  {
  }

  // ------------------------------------------------------------- the machine

  /** The diagram's own state: the input count, the node whose remove button
      is offered after a long press, and whether a revert is running. */
  datatype Diagram = Diagram(inputCount: int, longPressed: Option<string>, reverting: bool)

  function Initial(initialInputs: int): Diagram {
    Diagram(initialInputs, None, false)
  }

  /** `handleAddInput`: one more input, never beyond MAX_INPUTS; nothing else
      changes. */
  function AddInput(d: Diagram): (r: Diagram)
    ensures d.inputCount <= r.inputCount <= d.inputCount + 1
    ensures d.inputCount <= MaxInputs ==> r.inputCount <= MaxInputs
    ensures r.longPressed == d.longPressed && r.reverting == d.reverting
  {
    if d.inputCount < MaxInputs then d.(inputCount := d.inputCount + 1) else d
  }

  /** `handleRemoveInput`: one input fewer and the remove button gone, never
      below one input and never for bias. */
  function RemoveInput(d: Diagram, nodeId: string): (r: Diagram)
    ensures d.inputCount - 1 <= r.inputCount <= d.inputCount
    ensures d.inputCount >= 1 ==> r.inputCount >= 1
    ensures nodeId == "bias" ==> r == d
    ensures r.inputCount < d.inputCount ==> r.longPressed == None
    ensures r.inputCount == d.inputCount ==> r == d
    ensures r.reverting == d.reverting
  {
    if nodeId != "bias" && d.inputCount > 1 then d.(inputCount := d.inputCount - 1, longPressed := None)
    else d
  }

  /** The guard of `handleLongPressStart`: refused for bias, x1, x2 and for
      `x${inputCount}`. */
  predicate LongPressRefused(d: Diagram, nodeId: string) {
    nodeId == "bias" || nodeId == "x1" || nodeId == "x2" || nodeId == "x" + IntString(d.inputCount)
  }

  /** A long press that is held until its timer fires: it offers the node's
      remove button unless the guard refuses, and never for bias, x1 or x2. */
  function LongPress(d: Diagram, nodeId: string): (r: Diagram)
    ensures LongPressRefused(d, nodeId) ==> r == d
    ensures !LongPressRefused(d, nodeId) ==> r == d.(longPressed := Some(nodeId))
    ensures nodeId == "bias" || nodeId == "x1" || nodeId == "x2" ==> r == d
    ensures r.inputCount == d.inputCount && r.reverting == d.reverting
  {
    if LongPressRefused(d, nodeId) then d else d.(longPressed := Some(nodeId))
  }

  /** A mouse-down outside every node clears the long press and changes
      nothing else. */
  function ClickOutside(d: Diagram): (r: Diagram)
    ensures r.longPressed == None
    ensures r.inputCount == d.inputCount && r.reverting == d.reverting
  {
    d.(longPressed := None)
  }

  /** The remove button of a node is drawn only for the long-pressed node,
      and never for bias or xm. */
  predicate RemoveButtonShown(d: Diagram, nodeId: string) {
    d.longPressed == Some(nodeId) && nodeId != "bias" && nodeId != "xm"
  }

  /** Where `handleRevert` leaves the diagram once all its timers have run: a
      count above 3 drops to 3, any other count stays, and nothing else changes. */
  function RevertResult(d: Diagram): (r: Diagram)
    ensures r.inputCount <= d.inputCount
    ensures d.inputCount >= BaseInputs ==> r.inputCount >= BaseInputs
    ensures r.inputCount != d.inputCount ==> r.inputCount == BaseInputs
    ensures r.longPressed == d.longPressed && r.reverting == d.reverting
  {
    if d.inputCount > BaseInputs && !d.reverting then d.(inputCount := BaseInputs) else d
  }

  /**
   `handleRevert`, with its timers replaced by a loop: it marks every node
   after the first three for removal, then each interval tick lowers the count
   by one until a tick finds it at 3 or below, sets 3 and stops. `ticks` are
   the counts the ticks set.
   */
  method Revert(d: Diagram) returns (marked: seq<string>, ticks: seq<int>, e: Diagram)
    ensures e == RevertResult(d)
    ensures !(d.inputCount > BaseInputs && !d.reverting) ==> marked == [] && ticks == []
    ensures d.inputCount > BaseInputs && !d.reverting ==>
      && |marked| == XCount(d.inputCount) - 2
      && (forall i :: 0 <= i < |marked| ==> marked[i] == "x" + DecimalString(i + 3))
      && |ticks| == d.inputCount - BaseInputs + 1
      && (forall i :: 0 <= i < |ticks| - 1 ==> ticks[i] == d.inputCount - 1 - i)
      && ticks[|ticks| - 1] == BaseInputs
  {
    marked, ticks, e := [], [], d;
    if d.inputCount > BaseInputs && !d.reverting {
      var nodes := InputNodes(d.inputCount);
      marked := Ids(nodes[3..]);
      forall i | 0 <= i < |marked|
        ensures marked[i] == "x" + DecimalString(i + 3)
      {
        assert nodes[i + 3] == XNodes(XCount(d.inputCount))[i + 2];
      }
      var prev := d.inputCount;
      var running := true;
      while running
        invariant running ==> BaseInputs <= prev <= d.inputCount && |ticks| == d.inputCount - prev
        invariant !running ==> prev == BaseInputs && |ticks| == d.inputCount - BaseInputs + 1
        invariant !running ==> ticks[|ticks| - 1] == BaseInputs
        invariant forall i :: 0 <= i < |ticks| && (running || i < |ticks| - 1) ==> ticks[i] == d.inputCount - 1 - i
        decreases if running then prev - BaseInputs + 1 else 0
      {
        if prev <= BaseInputs {
          running := false;
          prev := BaseInputs;
        } else {
          prev := prev - 1;
        }
        ticks := ticks + [prev];
      }
      e := d.(inputCount := prev);
    }
  }

  /** The add and revert buttons are disabled exactly when their handlers
      would change nothing. */
  lemma ButtonsDisabledExactlyWhenNoOp(d: Diagram)
    ensures AddInput(d) == d <==> d.inputCount >= MaxInputs
    ensures RevertResult(d) == d <==> d.inputCount <= BaseInputs || d.reverting
    ensures RemoveInput(d, "bias") == d
  {
  }

  /** Adding an input and then removing one undoes the add, apart from
      clearing the long press; removing and then adding restores the count. */
  lemma AddRemoveInverse(d: Diagram, nodeId: string)
    requires nodeId != "bias"
    ensures 1 <= d.inputCount < MaxInputs ==> RemoveInput(AddInput(d), nodeId) == d.(longPressed := None)
    ensures 1 < d.inputCount <= MaxInputs ==> AddInput(RemoveInput(d, nodeId)).inputCount == d.inputCount
  {
  }

  /** The `x${inputCount}` arm of the long-press guard never matches a drawn
      node: the `x` nodes drawn are x1..x(k) with k below the count. */
  lemma LongPressGuardNeverDrawn(count: int)
    ensures forall i :: 0 <= i < |InputNodes(count)| ==> InputNodes(count)[i].id != "x" + IntString(count)
  {
    var ns := InputNodes(count);
    var t := "x" + IntString(count);
    InputNodesShape(count);
    forall i | 0 <= i < |ns|
      ensures ns[i].id != t
    {
      if i == 0 {
        assert ns[i].id[0] != t[0];
      } else if i <= XCount(count) {
        assert count >= 2;
        assert t == "x" + DecimalString(count);
        assert ns[i].id == "x" + DecimalString(i);
        DecimalInjective(i, count);
        assert ns[i].id[1..] == DecimalString(i) && t[1..] == DecimalString(count);
      } else {
        assert ns[i] == Xm;
        assert |IntString(count)| >= 1;
        assert t[1] == IntString(count)[0];
        if count < 0 {
          assert t[1] == '-';
        } else {
          assert IsDigit(t[1]);
        }
      }
    }
  }

  datatype Action = Add | Remove(nodeId: string) | LongPressOn(nodeId: string) | ClickAway | RevertAll

  function Step(d: Diagram, a: Action): Diagram {
    match a
    case Add => AddInput(d)
    case Remove(id) => RemoveInput(d, id)
    case LongPressOn(id) => LongPress(d, id)
    case ClickAway => ClickOutside(d)
    case RevertAll => RevertResult(d)
  }

  function Run(d: Diagram, actions: seq<Action>): Diagram
    decreases |actions|
  {
    if |actions| == 0 then d else Run(Step(d, actions[0]), actions[1..])
  }

  /** The states the diagram can reach from its default start: between 1 and
      7 inputs, no revert left running, and no long press on bias, x1 or x2. */
  predicate Valid(d: Diagram) {
    && 1 <= d.inputCount <= MaxInputs
    && !d.reverting
    && (d.longPressed.Some? ==> d.longPressed.value != "bias" && d.longPressed.value != "x1" && d.longPressed.value != "x2")
  }

  lemma {:induction false} RunPreservesValid(d: Diagram, actions: seq<Action>)
    requires Valid(d)
    ensures Valid(Run(d, actions))
    decreases |actions|
  {
    if |actions| > 0 {
      RunPreservesValid(Step(d, actions[0]), actions[1..]);
    }
  }

  /** From any count of at most 7, no sequence of actions exceeds 7. */
  lemma {:induction false} RunKeepsCountAtMostMax(d: Diagram, actions: seq<Action>)
    requires d.inputCount <= MaxInputs
    ensures Run(d, actions).inputCount <= MaxInputs
    decreases |actions|
  {
    if |actions| > 0 {
      RunKeepsCountAtMostMax(Step(d, actions[0]), actions[1..]);
    }
  }

  /** From the default start of 3 inputs, the remove button is never offered
      for bias, x1, x2 or xm. */
  lemma RemoveButtonOnlyForRemovable(actions: seq<Action>, nodeId: string)
    requires RemoveButtonShown(Run(Initial(3), actions), nodeId)
    ensures nodeId != "bias" && nodeId != "x1" && nodeId != "x2" && nodeId != "xm"
  {
    RunPreservesValid(Initial(3), actions);
  }

  // ----------------------------------------------------------- weight labels

  /** `id.split('-')[0]`: the text before the first '-'. */
  function BeforeDash(s: string): (r: string)
    ensures |r| <= |s| && r == s[..|r|]
    ensures forall i :: 0 <= i < |r| ==> r[i] != '-'
    ensures |r| < |s| ==> s[|r|] == '-'
    decreases |s|
  {
    if |s| == 0 || s[0] == '-' then [] else [s[0]] + BeforeDash(s[1..])
  }

  /** `s.slice(1)`: everything after the first character, or "" for "". */
  function DropFirst(s: string): (r: string)
    ensures |s| > 0 ==> s == [s[0]] + r
    ensures |s| == 0 ==> r == []
  {
    if |s| == 0 then [] else s[1..]
  }

  /** `${n}` of a parsed number: NaN prints as "NaN". */
  function NumberText(v: Option<nat>): string {
    match v
    case Some(n) => DecimalString(n)
    case None => "NaN"
  }

  /** The weight label drawn on an edge, if any: only input-to-sum edges
      other than the bias edge carry one. */
  function WeightLabel(edgeId: string): (l: Option<string>)
    ensures l.Some? ==> |l.value| >= 2 && l.value[0] == 'w'
    ensures l.Some? ==> Text.Contains(edgeId, "-sum") && !Text.Contains(edgeId, "bias")
    ensures Text.Contains(edgeId, "-sum") && !Text.Contains(edgeId, "bias") ==> l.Some?
  {
    if Text.Contains(edgeId, "-sum") && !Text.Contains(edgeId, "bias") then
      Some(if edgeId == "xm-sum" then "w\U{2098}" else "w" + NumberText(ParseInt(DropFirst(BeforeDash(edgeId)))))
    else None
  }

  /** The edge ids in drawing order: one per input node into the sum, then
      sum to function, then function to output. */
  function EdgeIds(count: int): (es: seq<string>)
    ensures |es| == |InputNodes(count)| + 2
    ensures forall i :: 0 <= i < |InputNodes(count)| ==> es[i] == InputNodes(count)[i].id + "-sum"
    ensures es[|es| - 2..] == OutputEdges
  {
    InputEdgesAt(InputNodes(count));
    InputEdges(InputNodes(count)) + OutputEdges
  }

  const OutputEdges: seq<string> := ["sum-function", "function-output"]

  function InputEdges(ns: seq<Node>): seq<string>
    decreases |ns|
  {
    if |ns| == 0 then [] else [ns[0].id + "-sum"] + InputEdges(ns[1..])
  }

  /** One edge per node into the sum, in node order. */
  lemma {:induction false} InputEdgesAt(ns: seq<Node>)
    ensures |InputEdges(ns)| == |ns|
    ensures forall i :: 0 <= i < |ns| ==> InputEdges(ns)[i] == ns[i].id + "-sum"
    decreases |ns|
  {
    if |ns| > 0 {
      InputEdgesAt(ns[1..]);
    }
  }

  /** The labels drawn, in edge order. */
  function Labels(edges: seq<string>): seq<string>
    decreases |edges|
  {
    if |edges| == 0 then []
    else
      match WeightLabel(edges[0])
      case Some(l) => [l] + Labels(edges[1..])
      case None => Labels(edges[1..])
  }

  function WeightLabels(count: int): seq<string> {
    Labels(EdgeIds(count))
  }

  lemma {:induction false} InputEdgesAppend(a: seq<Node>, b: seq<Node>)
    ensures InputEdges(a + b) == InputEdges(a) + InputEdges(b)
    decreases |a|
  {
    if |a| == 0 {
      assert a + b == b;
    } else {
      assert (a + b)[1..] == a[1..] + b;
      assert (a + b)[0] == a[0];
      InputEdgesAppend(a[1..], b);
      var e := [a[0].id + "-sum"];
      assert InputEdges(a + b) == e + (InputEdges(a[1..]) + InputEdges(b));
      assert InputEdges(a) == e + InputEdges(a[1..]);
      assert e + (InputEdges(a[1..]) + InputEdges(b)) == (e + InputEdges(a[1..])) + InputEdges(b);
    }
  }

  lemma {:induction false} LabelsAppend(a: seq<string>, b: seq<string>)
    ensures Labels(a + b) == Labels(a) + Labels(b)
    decreases |a|
  {
    if |a| == 0 {
      assert a + b == b;
    } else {
      assert (a + b)[1..] == a[1..] + b;
      assert (a + b)[0] == a[0];
      LabelsAppend(a[1..], b);
      match WeightLabel(a[0])
      case Some(l) =>
        assert Labels(a + b) == [l] + (Labels(a[1..]) + Labels(b));
        assert [l] + (Labels(a[1..]) + Labels(b)) == ([l] + Labels(a[1..])) + Labels(b);
      case None =>
    }
  }

  lemma NoDash(s: string)
    requires AllDigits(s)
    ensures BeforeDash(s + "-sum") == s
    decreases |s|
  {
    if |s| > 0 {
      assert (s + "-sum")[1..] == s[1..] + "-sum";
      NoDash(s[1..]);
      assert s == [s[0]] + s[1..];
    } else {
      assert s + "-sum" == "-sum";
    }
  }

  /** The edge of input node x<n> is labelled w<n>. */
  lemma XEdgeLabel(n: nat)
    ensures WeightLabel(XNode(n).id + "-sum") == Some("w" + DecimalString(n))
  {
    var d := DecimalString(n);
    var e := XNode(n).id + "-sum";
    assert e == "x" + d + "-sum";
    assert e == ("x" + d) + "-sum";
    Text.ContainsSuffix("x" + d, "-sum");
    Text.NotContainsPair(e, "bias");
    assert e[1] == d[0];
    assert e != "xm-sum";
    assert e == ['x'] + (d + "-sum");
    NoDash(d);
    assert BeforeDash(e) == ['x'] + d;
    assert DropFirst(['x'] + d) == d;
    ParseDecimal(n);
  }

  /** A single edge contributes its own label, if it has one. */
  lemma SingleEdgeLabel(e: string)
    ensures Labels([e]) == (if WeightLabel(e).Some? then [WeightLabel(e).value] else [])
  {
    assert [e][1..] == [];
  }

  /** Appending node x<k> appends the label w<k>. */
  lemma XEdgeLabelsStep(k: nat)
    requires k > 0
    ensures Labels(InputEdges(XNodes(k))) == Labels(InputEdges(XNodes(k - 1))) + ["w" + DecimalString(k)]
  {
    var e := XNode(k).id + "-sum";
    assert XNodes(k) == XNodes(k - 1) + [XNode(k)];
    InputEdgesAppend(XNodes(k - 1), [XNode(k)]);
    assert InputEdges([XNode(k)]) == [e];
    LabelsAppend(InputEdges(XNodes(k - 1)), [e]);
    XEdgeLabel(k);
    SingleEdgeLabel(e);
  }

  /** The labels w1..wk. */
  function XLabelList(k: nat): (ls: seq<string>)
    ensures |ls| == k
  {
    seq(k, i requires 0 <= i < k => "w" + DecimalString(i + 1))
  }

  lemma XLabelListSnoc(k: nat)
    requires k > 0
    ensures XLabelList(k) == XLabelList(k - 1) + ["w" + DecimalString(k)]
  {
    assert forall i :: 0 <= i < k - 1 ==> XLabelList(k)[i] == XLabelList(k - 1)[i];
  }

  lemma {:induction false} XEdgeLabels(k: nat)
    ensures Labels(InputEdges(XNodes(k))) == XLabelList(k)
    decreases k
  {
    if k > 0 {
      XEdgeLabels(k - 1);
      XEdgeLabelsStep(k);
      XLabelListSnoc(k);
    }
  }

  /** Edges that carry no label contribute none. */
  lemma {:induction false} LabelsOfUnlabelled(edges: seq<string>)
    requires forall i :: 0 <= i < |edges| ==> WeightLabel(edges[i]).None?
    ensures Labels(edges) == []
    decreases |edges|
  {
    if |edges| > 0 {
      LabelsOfUnlabelled(edges[1..]);
    }
  }

  /** The bias edge carries no label. */
  lemma BiasEdgeLabel()
    ensures Labels(InputEdges([Bias])) == []
  {
    var e := Bias.id + "-sum";
    assert [Bias][1..] == [];
    assert InputEdges([Bias]) == [e];
    Text.ContainsPrefix("bias", "-sum");
    Text.ContainsSuffix("bias", "-sum");
    LabelsOfUnlabelled([e]);
  }

  /** Neither edge after the sum mentions `-sum`. */
  lemma SumFunctionUnlabelled()
    ensures WeightLabel("sum-function").None?
  {
    Text.NotContainsPair("sum-function", "-sum");
  }

  lemma FunctionOutputUnlabelled()
    ensures WeightLabel("function-output").None?
  {
    Text.NotContainsPair("function-output", "-sum");
  }

  lemma OutputEdgesUnlabelled()
    ensures WeightLabel(OutputEdges[0]).None? && WeightLabel(OutputEdges[1]).None?
  {
    SumFunctionUnlabelled();
    FunctionOutputUnlabelled();
  }

  /** Two unlabelled edges give no labels. */
  lemma UnlabelledPair(edges: seq<string>)
    requires |edges| == 2 && WeightLabel(edges[0]).None? && WeightLabel(edges[1]).None?
    ensures Labels(edges) == []
  {
    assert edges == [edges[0]] + [edges[1]];
    LabelsAppend([edges[0]], [edges[1]]);
    SingleEdgeLabel(edges[0]);
    SingleEdgeLabel(edges[1]);
  }

  /** The sum-to-function and function-to-output edges carry no label. */
  lemma OutputEdgeLabels()
    ensures Labels(OutputEdges) == []
  {
    OutputEdgesUnlabelled();
    UnlabelledPair(OutputEdges);
  }

  /** The xm edge is labelled wₘ. */
  lemma XmEdgeLabel()
    ensures Labels(InputEdges([Xm])) == ["w\U{2098}"]
  {
    var e := Xm.id + "-sum";
    assert [Xm][1..] == [];
    assert InputEdges([Xm]) == [e];
    Text.ContainsSuffix("xm", "-sum");
    Text.NotContainsPair(e, "bias");
    assert WeightLabel(e) == Some("w\U{2098}");
    assert [e][1..] == [];
  }

  /** Only the input edges contribute labels. */
  lemma EdgeIdsLabels(count: int)
    ensures WeightLabels(count) == Labels(InputEdges(InputNodes(count)))
  {
    LabelsAppend(InputEdges(InputNodes(count)), OutputEdges);
    OutputEdgeLabels();
  }

  /**
   The labels drawn are w1..wk for the `x` nodes in order, then wₘ for the xm
   node when it is shown; the bias edge and the two edges after the sum
   carry none.
   */
  lemma WeightLabelsSpec(count: int)
    ensures WeightLabels(count) ==
      seq(XCount(count), i requires 0 <= i < XCount(count) => "w" + DecimalString(i + 1))
      + (if count <= BaseInputs then ["w\U{2098}"] else [])
  {
    EdgeIdsLabels(count);
    InputLabelsSplit(count);
    BiasEdgeLabel();
    XEdgeLabels(XCount(count));
    XmEdgeLabel();
    assert InputEdges([]) == [];
  }

  /** The input edges' labels are those of the bias edge, of the `x` edges and
      of the xm edge, in that order. */
  lemma InputLabelsSplit(count: int)
    ensures Labels(InputEdges(InputNodes(count))) ==
      Labels(InputEdges([Bias])) + Labels(InputEdges(XNodes(XCount(count))))
      + Labels(InputEdges(if count <= BaseInputs then [Xm] else []))
  {
    var k := XCount(count);
    var tail := if count <= BaseInputs then [Xm] else [];
    var b, x, m := InputEdges([Bias]), InputEdges(XNodes(k)), InputEdges(tail);
    InputEdgesAppend([Bias] + XNodes(k), tail);
    InputEdgesAppend([Bias], XNodes(k));
    assert InputEdges(InputNodes(count)) == b + x + m;
    LabelsAppend(b + x, m);
    LabelsAppend(b, x);
  }

}
