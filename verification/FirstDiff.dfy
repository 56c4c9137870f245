/** The walk over two canonical byte strings that names the first component that differs. */
module FirstDiff {
  import opened Common
  import opened Digest
  import opened Instance
  import LittleEndian
  import opened Machine
  import Metadata
  import opened Validation
  import opened Varint

  datatype Component =
    | Format | DescriptorDigest | TopologyOrderDigest | Nonce | NodeCount | NodeIds | EdgeCount | Edges
    | H | J | Offset | MetadataSectionCount | MetadataSection | Length

  /** What differs, where in its list, and the bytes on each side; a length difference shows the lengths. */
  datatype Diff = Diff(component: Component, index: Option<nat>, expected: seq<byte>, got: seq<byte>) | LengthDiff(want: nat, have: nat)

  // ---- the steps ----

  function TooShort(e: seq<byte>, g: seq<byte>): Diff {
    LengthDiff(|e|, |g|)
  }

  /** Compares `width` bytes at `start`; a side too short is a length difference. */
  function Step(e: seq<byte>, g: seq<byte>, c: Component, index: Option<nat>, start: nat, width: nat): Result<(), Diff> {
    if start + width > |e| || start + width > |g| then Err(TooShort(e, g))
    else if e[start..start + width] == g[start..start + width] then Ok(())
    else Err(Diff(c, index, e[start..start + width], g[start..start + width]))
  }

  /** A number that would lie past the end reads as zero. */
  function Number(e: seq<byte>, at: nat, width: nat): (v: nat)
    ensures at + width > |e| ==> v == 0
  {
    if at + width <= |e| then LittleEndian.Value(e[at..at + width]) else 0
  }

  /** Compares elements `i` up to `count` of `width` bytes, the next one at `at`. */
  function Elements(e: seq<byte>, g: seq<byte>, c: Component, at: nat, i: nat, count: nat, width: nat): Result<(), Diff>
    requires i <= count
    decreases count - i, e
  {
    if i == count then Ok(())
    else
      var one :- Step(e, g, c, Some(i), at, width);
      Elements(e, g, c, at + width, i + 1, count, width)
  }

  /** Compares sections `i` up to `count`: the header, then the payload its length names, then the ends of both sides. */
  function Sections(e: seq<byte>, g: seq<byte>, at: nat, i: nat, count: nat): Result<(), Diff>
    requires i <= count
    decreases count - i, e
  {
    if i == count then
      if |e| != at || |g| != at then Err(TooShort(e, g)) else Ok(())
    else
      var header :- Step(e, g, MetadataSection, Some(i), at, 6);
      var length := Number(e, at + 2, 4);
      var payload :- Step(e, g, MetadataSection, Some(i), at + 6, length);
      Sections(e, g, at + 6 + length, i + 1, count)
  }

  function MetadataWalk(e: seq<byte>, g: seq<byte>, start: nat): Result<(), Diff> {
    var counted :- Step(e, g, MetadataSectionCount, None, start, 2);
    Sections(e, g, start + 2, 0, Number(e, start, 2))
  }

  function FromOffset(e: seq<byte>, g: seq<byte>, at: nat): Result<(), Diff> {
    var offset :- Step(e, g, Offset, None, at, 8);
    MetadataWalk(e, g, at + 8)
  }

  function FromJ(e: seq<byte>, g: seq<byte>, at: nat, edges: nat): Result<(), Diff> {
    var js :- Elements(e, g, J, at, 0, edges, 4);
    FromOffset(e, g, at + 4 * edges)
  }

  function FromH(e: seq<byte>, g: seq<byte>, at: nat, nodes: nat, edges: nat): Result<(), Diff> {
    var hs :- Elements(e, g, H, at, 0, nodes, 4);
    FromJ(e, g, at + 4 * nodes, edges)
  }

  /** The edges and the lists that follow them, once the counts are known. */
  function Lists(e: seq<byte>, g: seq<byte>, at: nat, nodes: nat, edges: nat): Result<(), Diff> {
    var es :- Elements(e, g, Edges, at, 0, edges, 8);
    FromH(e, g, at + 8 * edges, nodes, edges)
  }

  function AfterNodes(e: seq<byte>, g: seq<byte>, at: nat, nodes: nat): Result<(), Diff> {
    var edgeCount :- Step(e, g, EdgeCount, None, at, 4);
    Lists(e, g, at + 4, nodes, Number(e, at, 4))
  }

  function Counted(e: seq<byte>, g: seq<byte>): Result<(), Diff> {
    var counted :- Step(e, g, NodeCount, None, 97, 4);
    var nodes := Number(e, 97, 4);
    var ids :- Elements(e, g, NodeIds, 101, 0, nodes, 4);
    AfterNodes(e, g, 101 + 4 * nodes, nodes)
  }

  function Run(e: seq<byte>, g: seq<byte>): Result<(), Diff> {
    var format :- Step(e, g, Format, None, 0, 1);
    var descriptor :- Step(e, g, DescriptorDigest, None, 1, 32);
    var topology :- Step(e, g, TopologyOrderDigest, None, 33, 32);
    var nonce :- Step(e, g, Nonce, None, 65, 32);
    Counted(e, g)
  }

  /** Nothing when the walk finds no difference. */
  function Find(e: seq<byte>, g: seq<byte>): Option<Diff> {
    match Run(e, g)
    case Ok(_) => None
    case Err(d) => Some(d)
  }

  // ---- where the components stand ----

  function EdgeCountAt(e: seq<byte>): nat {
    101 + 4 * Number(e, 97, 4)
  }

  function MetadataAt(e: seq<byte>): nat {
    EdgeCountAt(e) + 12 + 4 * Number(e, 97, 4) + 12 * Number(e, EdgeCountAt(e), 4)
  }

  /** Where section `i` starts when the first starts at `at`. */
  ghost function SectionStart(e: seq<byte>, at: nat, i: nat): nat {
    if i == 0 then at
    else
      var before := SectionStart(e, at, i - 1);
      before + 6 + Number(e, before + 2, 4)
  }

  /** The counts that fix the layout, and where the metadata then starts. */
  datatype Plan = Plan(nodes: nat, edges: nat, sections: nat) {
    function Lists(): nat {
      105 + 4 * nodes
    }

    function MetadataStart(): nat {
      Lists() + 12 * edges + 4 * nodes + 8
    }
  }

  /** The counts as they stand in the bytes. */
  ghost function PlanOf(e: seq<byte>): Plan {
    Plan(Number(e, 97, 4), Number(e, EdgeCountAt(e), 4), Number(e, MetadataAt(e), 2))
  }

  /** The bytes of section `i`: its header, or the payload that the header gives the length of. */
  ghost predicate InSection(e: seq<byte>, start: nat, p: nat, width: nat) {
    (p == start && width == 6) || (p == start + 6 && width == Number(e, start + 2, 4))
  }

  /** In the layout of the format, `width` bytes at `p` are the component, or element `index` of its list. */
  ghost predicate StandsAt(e: seq<byte>, plan: Plan, c: Component, index: Option<nat>, p: nat, width: nat) {
    match c
    case Format => index.None? && p == 0 && width == 1
    case DescriptorDigest => index.None? && p == 1 && width == 32
    case TopologyOrderDigest => index.None? && p == 33 && width == 32
    case Nonce => index.None? && p == 65 && width == 32
    case NodeCount => index.None? && p == 97 && width == 4
    case NodeIds => index.Some? && index.value < plan.nodes && p == 101 + 4 * index.value && width == 4
    case EdgeCount => index.None? && p == 101 + 4 * plan.nodes && width == 4
    case Edges => index.Some? && index.value < plan.edges && p == plan.Lists() + 8 * index.value && width == 8
    case H => index.Some? && index.value < plan.nodes && p == plan.Lists() + 8 * plan.edges + 4 * index.value && width == 4
    case J => index.Some? && index.value < plan.edges && p == plan.Lists() + 8 * plan.edges + 4 * plan.nodes + 4 * index.value && width == 4
    case Offset => index.None? && p + 8 == plan.MetadataStart() && width == 8
    case MetadataSectionCount => index.None? && p == plan.MetadataStart() && width == 2
    case MetadataSection =>
      index.Some? && index.value < plan.sections && InSection(e, SectionStart(e, plan.MetadataStart() + 2, index.value), p, width)
    case Length => false
  }

  // ---- what a walk proves ----

  /** Both sides agree on their first `p` bytes. */
  ghost predicate AgreeTo(e: seq<byte>, g: seq<byte>, p: nat) {
    p <= |e| && p <= |g| && forall i :: 0 <= i < p ==> e[i] == g[i]
  }

  /** A reported difference stands right after bytes that agree, so it is the first, and it is in the component it names. */
  ghost predicate IsFirst(e: seq<byte>, g: seq<byte>, plan: Plan, d: Diff) {
    match d
    case LengthDiff(want, have) => want == |e| && have == |g|
    case Diff(c, index, x, y) => x != y && |x| == |y| && exists p: nat :: StandsAt(e, plan, c, index, p, |x|) && DiffersAt(e, g, p, x, y)
  }

  ghost predicate DiffersAt(e: seq<byte>, g: seq<byte>, p: nat, x: seq<byte>, y: seq<byte>) {
    AgreeTo(e, g, p) && At(e, p, x) && At(g, p, y)
  }

  /** From agreement up to `start`: success extends it to `end`, failure names the first difference. */
  ghost predicate Walks(e: seq<byte>, g: seq<byte>, plan: Plan, r: Result<(), Diff>, end: nat) {
    match r
    case Ok(_) => AgreeTo(e, g, end)
    case Err(d) => IsFirst(e, g, plan, d)
  }

  lemma StepWalks(e: seq<byte>, g: seq<byte>, plan: Plan, c: Component, index: Option<nat>, start: nat, width: nat)
    requires AgreeTo(e, g, start) == true && StandsAt(e, plan, c, index, start, width) == true
    ensures Walks(e, g, plan, Step(e, g, c, index, start, width), start + width) == true
  {
    if start + width <= |e| && start + width <= |g| {
      var x, y := e[start..start + width], g[start..start + width];
      if x == y {
        AgreeOn(e, g, start, width);
      } else {
        assert DiffersAt(e, g, start, x, y);
      }
    }
  }

  lemma AgreeOn(e: seq<byte>, g: seq<byte>, start: nat, width: nat)
    requires AgreeTo(e, g, start) && start + width <= |e| && start + width <= |g|
    requires e[start..start + width] == g[start..start + width]
    ensures AgreeTo(e, g, start + width) == true
  {
    var x, y := e[start..start + width], g[start..start + width];
    forall i | start <= i < start + width
      ensures e[i] == g[i]
    {
      assert e[i] == x[i - start] && g[i] == y[i - start];
    }
  }

  /** The bytes that `left` elements take. */
  function Extent(left: nat, width: nat): nat {
    if left == 0 then 0 else width + Extent(left - 1, width)
  }

  lemma {:induction false} ExtentOf48(left: nat)
    ensures Extent(left, 4) == 4 * left && Extent(left, 8) == 8 * left
  {
    if left > 0 {
      ExtentOf48(left - 1);
    }
  }

  /** The list at `first` holds `count` elements of the component. */
  ghost predicate ListAt(e: seq<byte>, plan: Plan, c: Component, first: nat, count: nat, width: nat) {
    forall k: nat :: k < count ==> ElementAt(e, plan, c, first, k, width)
  }

  ghost predicate ElementAt(e: seq<byte>, plan: Plan, c: Component, first: nat, k: nat, width: nat) {
    StandsAt(e, plan, c, Some(k), first + Extent(k, width), width)
  }

  lemma ListStands(e: seq<byte>, plan: Plan, c: Component, first: nat, count: nat, width: nat)
    requires width == 4 || width == 8
    requires forall k: nat :: k < count ==> StandsAt(e, plan, c, Some(k), first + width * k, width)
    ensures ListAt(e, plan, c, first, count, width) == true
  {
    forall k: nat | k < count ensures ElementAt(e, plan, c, first, k, width) {
      ExtentOf48(k);
    }
  }

  lemma ElementStands(e: seq<byte>, plan: Plan, c: Component, first: nat, at: nat, i: nat, count: nat, width: nat)
    requires i < count && ListAt(e, plan, c, first, count, width) && at == first + Extent(i, width)
    ensures StandsAt(e, plan, c, Some(i), at, width) == true && at + width == first + Extent(i + 1, width)
  {
    assert ElementAt(e, plan, c, first, i, width);
  }

  lemma StepAgrees(e: seq<byte>, g: seq<byte>, plan: Plan, c: Component, index: Option<nat>, start: nat, width: nat)
    requires Walks(e, g, plan, Step(e, g, c, index, start, width), start + width) == true && Step(e, g, c, index, start, width).Ok?
    ensures AgreeTo(e, g, start + width) == true
  {
  }

  /** A finished walk reaches the end of both sides. */
  ghost predicate Finds(e: seq<byte>, g: seq<byte>, plan: Plan, r: Result<(), Diff>) {
    match r
    case Ok(_) => e == g
    case Err(d) => IsFirst(e, g, plan, d)
  }

  /** A reported difference is that of whatever walk goes on from the step. */
  lemma StepReports(e: seq<byte>, g: seq<byte>, plan: Plan, r: Result<(), Diff>, end: nat, far: nat)
    requires Walks(e, g, plan, r, end) == true && r.Err?
    ensures Walks(e, g, plan, r, far) == true && Finds(e, g, plan, r) == true
  {
  }

  lemma ElementsUnfold(e: seq<byte>, g: seq<byte>, c: Component, at: nat, i: nat, count: nat, width: nat)
    requires i < count
    ensures var one := Step(e, g, c, Some(i), at, width);
            Elements(e, g, c, at, i, count, width) == if one.Err? then one else Elements(e, g, c, at + width, i + 1, count, width)
  {
  }

  /** One element: the walk goes on behind it, or ends in its difference. */
  lemma OneElement(e: seq<byte>, g: seq<byte>, plan: Plan, c: Component, at: nat, i: nat, width: nat, end: nat)
    requires AgreeTo(e, g, at) == true && StandsAt(e, plan, c, Some(i), at, width) == true
    ensures var one := Step(e, g, c, Some(i), at, width);
            if one.Ok? then AgreeTo(e, g, at + width) == true else Walks(e, g, plan, one, end) == true
  {
    var one := Step(e, g, c, Some(i), at, width);
    StepWalks(e, g, plan, c, Some(i), at, width);
    if one.Ok? {
      StepAgrees(e, g, plan, c, Some(i), at, width);
    } else {
      StepReports(e, g, plan, one, at + width, end);
    }
  }

  lemma NoElements(e: seq<byte>, g: seq<byte>, plan: Plan, c: Component, at: nat, count: nat, width: nat)
    requires AgreeTo(e, g, at)
    ensures Walks(e, g, plan, Elements(e, g, c, at, count, count, width), at) == true
  {
  }

  lemma {:induction false} ElementsWalk(e: seq<byte>, g: seq<byte>, plan: Plan, c: Component, first: nat, at: nat, i: nat, left: nat, count: nat,
                                        width: nat, end: nat)
    requires i + left == count && AgreeTo(e, g, at) == true
    requires ListAt(e, plan, c, first, count, width) == true && at == first + Extent(i, width) && end == at + Extent(left, width)
    ensures Walks(e, g, plan, Elements(e, g, c, at, i, count, width), end) == true
    decreases left
  {
    if left == 0 {
      NoElements(e, g, plan, c, at, count, width);
      assert at == end && i == count;
    } else {
      ElementStands(e, plan, c, first, at, i, count, width);
      ElementsUnfold(e, g, c, at, i, count, width);
      OneElement(e, g, plan, c, at, i, width, end);
      OneMore(left - 1, width);
      if Step(e, g, c, Some(i), at, width).Ok? {
        assert Elements(e, g, c, at, i, count, width) == Elements(e, g, c, at + width, i + 1, count, width);
        ElementsWalk(e, g, plan, c, first, at + width, i + 1, left - 1, count, width, end);
      } else {
        assert Elements(e, g, c, at, i, count, width) == Step(e, g, c, Some(i), at, width);
      }
    }
  }

  lemma OneMore(i: nat, width: nat)
    ensures Extent(i + 1, width) == width + Extent(i, width)
  {
  }

  lemma AllAgree(e: seq<byte>, g: seq<byte>)
    requires |e| == |g| && AgreeTo(e, g, |e|)
    ensures e == g
  {
  }

  /** Section `i` starts at `at`. */
  ghost predicate SectionAt(e: seq<byte>, plan: Plan, at: nat, i: nat) {
    at == SectionStart(e, plan.MetadataStart() + 2, i)
  }

  lemma SectionStands(e: seq<byte>, plan: Plan, at: nat, i: nat, length: nat)
    requires i < plan.sections && SectionAt(e, plan, at, i) && length == Number(e, at + 2, 4)
    ensures StandsAt(e, plan, MetadataSection, Some(i), at, 6) == true
    ensures StandsAt(e, plan, MetadataSection, Some(i), at + 6, length) == true
    ensures SectionAt(e, plan, at + 6 + length, i + 1) == true
  {
  }

  lemma SectionsUnfold(e: seq<byte>, g: seq<byte>, at: nat, i: nat, count: nat)
    requires i < count
    ensures var header, length := Step(e, g, MetadataSection, Some(i), at, 6), Number(e, at + 2, 4);
            var payload := Step(e, g, MetadataSection, Some(i), at + 6, length);
            Sections(e, g, at, i, count) ==
            if header.Err? then header else if payload.Err? then payload else Sections(e, g, at + 6 + length, i + 1, count)
  {
  }

  lemma SectionsEnd(e: seq<byte>, g: seq<byte>, plan: Plan, at: nat, count: nat)
    requires AgreeTo(e, g, at)
    ensures Finds(e, g, plan, Sections(e, g, at, count, count)) == true
  {
    if |e| == at && |g| == at {
      AllAgree(e, g);
    }
  }

  /** One section: the walk goes on behind it, or ends in the difference of its header or payload. */
  lemma OneSection(e: seq<byte>, g: seq<byte>, plan: Plan, at: nat, i: nat, length: nat)
    requires AgreeTo(e, g, at) == true && StandsAt(e, plan, MetadataSection, Some(i), at, 6) == true
    requires StandsAt(e, plan, MetadataSection, Some(i), at + 6, length) == true
    ensures var header, payload := Step(e, g, MetadataSection, Some(i), at, 6), Step(e, g, MetadataSection, Some(i), at + 6, length);
            if header.Err? then Finds(e, g, plan, header) == true
            else if payload.Err? then Finds(e, g, plan, payload) == true else AgreeTo(e, g, at + 6 + length) == true
  {
    var header, payload := Step(e, g, MetadataSection, Some(i), at, 6), Step(e, g, MetadataSection, Some(i), at + 6, length);
    StepWalks(e, g, plan, MetadataSection, Some(i), at, 6);
    if header.Err? {
      StepReports(e, g, plan, header, at + 6, at);
    } else {
      StepAgrees(e, g, plan, MetadataSection, Some(i), at, 6);
      StepWalks(e, g, plan, MetadataSection, Some(i), at + 6, length);
      if payload.Err? {
        StepReports(e, g, plan, payload, at + 6 + length, at);
      } else {
        StepAgrees(e, g, plan, MetadataSection, Some(i), at + 6, length);
      }
    }
  }

  /** The walk from one section goes on at the next, or ends in its difference. */
  lemma SectionGoesOn(e: seq<byte>, g: seq<byte>, plan: Plan, at: nat, i: nat, count: nat) returns (next: nat, done: bool)
    requires i < count == plan.sections && AgreeTo(e, g, at) == true && SectionAt(e, plan, at, i) == true
    ensures done ==> Finds(e, g, plan, Sections(e, g, at, i, count)) == true
    ensures !done ==> Sections(e, g, at, i, count) == Sections(e, g, next, i + 1, count)
    ensures !done ==> AgreeTo(e, g, next) == true && SectionAt(e, plan, next, i + 1) == true
  {
    var length := Number(e, at + 2, 4);
    var header, payload := Step(e, g, MetadataSection, Some(i), at, 6), Step(e, g, MetadataSection, Some(i), at + 6, length);
    SectionStands(e, plan, at, i, length);
    SectionsUnfold(e, g, at, i, count);
    OneSection(e, g, plan, at, i, length);
    next, done := at + 6 + length, header.Err? || payload.Err?;
  }

  lemma {:induction false} SectionsWalk(e: seq<byte>, g: seq<byte>, plan: Plan, at: nat, i: nat, count: nat)
    requires i <= count == plan.sections && AgreeTo(e, g, at) == true && SectionAt(e, plan, at, i) == true
    ensures Finds(e, g, plan, Sections(e, g, at, i, count)) == true
    decreases count - i
  {
    if i == count {
      SectionsEnd(e, g, plan, at, count);
    } else {
      var next, done := SectionGoesOn(e, g, plan, at, i, count);
      if !done {
        SectionsWalk(e, g, plan, next, i + 1, count);
      }
    }
  }

  lemma MetadataFinds(e: seq<byte>, g: seq<byte>, plan: Plan, start: nat)
    requires AgreeTo(e, g, start) && start == plan.MetadataStart() && plan.sections == Number(e, start, 2)
    ensures Finds(e, g, plan, MetadataWalk(e, g, start))
  {
    StepWalks(e, g, plan, MetadataSectionCount, None, start, 2);
    if Step(e, g, MetadataSectionCount, None, start, 2).Ok? {
      SectionsWalk(e, g, plan, start + 2, 0, Number(e, start, 2));
    }
  }

  lemma OffsetFinds(e: seq<byte>, g: seq<byte>, plan: Plan, at: nat)
    requires AgreeTo(e, g, at) && at + 8 == plan.MetadataStart() && plan.sections == Number(e, at + 8, 2)
    ensures Finds(e, g, plan, FromOffset(e, g, at))
  {
    StepWalks(e, g, plan, Offset, None, at, 8);
    if Step(e, g, Offset, None, at, 8).Ok? {
      MetadataFinds(e, g, plan, at + 8);
    }
  }

  lemma JFinds(e: seq<byte>, g: seq<byte>, plan: Plan, at: nat, edges: nat)
    requires AgreeTo(e, g, at) && edges == plan.edges && at == plan.Lists() + 8 * edges + 4 * plan.nodes
    requires plan.sections == Number(e, plan.MetadataStart(), 2)
    ensures Finds(e, g, plan, FromJ(e, g, at, edges))
  {
    ExtentOf48(edges);
    ListStands(e, plan, J, at, edges, 4);
    ElementsWalk(e, g, plan, J, at, at, 0, edges, edges, 4, at + 4 * edges);
    if Elements(e, g, J, at, 0, edges, 4).Ok? {
      OffsetFinds(e, g, plan, at + 4 * edges);
    }
  }

  lemma HFinds(e: seq<byte>, g: seq<byte>, plan: Plan, at: nat, nodes: nat, edges: nat)
    requires AgreeTo(e, g, at) && nodes == plan.nodes && edges == plan.edges && at == plan.Lists() + 8 * edges
    requires plan.sections == Number(e, plan.MetadataStart(), 2)
    ensures Finds(e, g, plan, FromH(e, g, at, nodes, edges))
  {
    ExtentOf48(nodes);
    ListStands(e, plan, H, at, nodes, 4);
    ElementsWalk(e, g, plan, H, at, at, 0, nodes, nodes, 4, at + 4 * nodes);
    if Elements(e, g, H, at, 0, nodes, 4).Ok? {
      JFinds(e, g, plan, at + 4 * nodes, edges);
    }
  }

  lemma ListsFind(e: seq<byte>, g: seq<byte>, plan: Plan, at: nat, nodes: nat, edges: nat)
    requires AgreeTo(e, g, at) && nodes == plan.nodes && edges == plan.edges && at == plan.Lists()
    requires plan.sections == Number(e, plan.MetadataStart(), 2)
    ensures Finds(e, g, plan, Lists(e, g, at, nodes, edges))
  {
    ExtentOf48(edges);
    ListStands(e, plan, Edges, at, edges, 8);
    ElementsWalk(e, g, plan, Edges, at, at, 0, edges, edges, 8, at + 8 * edges);
    if Elements(e, g, Edges, at, 0, edges, 8).Ok? {
      HFinds(e, g, plan, at + 8 * edges, nodes, edges);
    }
  }

  lemma AfterNodesFinds(e: seq<byte>, g: seq<byte>, plan: Plan, at: nat, nodes: nat)
    requires AgreeTo(e, g, at) && nodes == plan.nodes && at == 101 + 4 * nodes && plan.edges == Number(e, at, 4)
    requires plan.sections == Number(e, plan.MetadataStart(), 2)
    ensures Finds(e, g, plan, AfterNodes(e, g, at, nodes))
  {
    StepWalks(e, g, plan, EdgeCount, None, at, 4);
    if Step(e, g, EdgeCount, None, at, 4).Ok? {
      ListsFind(e, g, plan, at + 4, nodes, Number(e, at, 4));
    }
  }

  lemma CountedFinds(e: seq<byte>, g: seq<byte>, plan: Plan)
    requires AgreeTo(e, g, 97) && plan.nodes == Number(e, 97, 4) && plan.edges == Number(e, 101 + 4 * plan.nodes, 4)
    requires plan.sections == Number(e, plan.MetadataStart(), 2)
    ensures Finds(e, g, plan, Counted(e, g))
  {
    StepWalks(e, g, plan, NodeCount, None, 97, 4);
    if Step(e, g, NodeCount, None, 97, 4).Ok? {
      NodesFind(e, g, plan, plan.nodes);
    }
  }

  lemma NodesFind(e: seq<byte>, g: seq<byte>, plan: Plan, nodes: nat)
    requires AgreeTo(e, g, 101) && nodes == plan.nodes && plan.edges == Number(e, 101 + 4 * nodes, 4)
    requires plan.sections == Number(e, plan.MetadataStart(), 2)
    ensures var ids := Elements(e, g, NodeIds, 101, 0, nodes, 4);
            Finds(e, g, plan, if ids.Err? then ids else AfterNodes(e, g, 101 + 4 * nodes, nodes)) == true
  {
    ExtentOf48(nodes);
    ListStands(e, plan, NodeIds, 101, nodes, 4);
    ElementsWalk(e, g, plan, NodeIds, 101, 101, 0, nodes, nodes, 4, 101 + 4 * nodes);
    if Elements(e, g, NodeIds, 101, 0, nodes, 4).Ok? {
      AfterNodesFinds(e, g, plan, 101 + 4 * nodes, nodes);
    }
  }

  /** For arbitrary bytes: no difference means equality, and a reported difference is the first one. */
  lemma FindsFirst(e: seq<byte>, g: seq<byte>)
    ensures Finds(e, g, PlanOf(e), Run(e, g))
  {
    var plan := PlanOf(e);
    StepWalks(e, g, plan, Format, None, 0, 1);
    if Step(e, g, Format, None, 0, 1).Ok? {
      StepWalks(e, g, plan, DescriptorDigest, None, 1, 32);
      if Step(e, g, DescriptorDigest, None, 1, 32).Ok? {
        StepWalks(e, g, plan, TopologyOrderDigest, None, 33, 32);
        if Step(e, g, TopologyOrderDigest, None, 33, 32).Ok? {
          StepWalks(e, g, plan, Nonce, None, 65, 32);
          if Step(e, g, Nonce, None, 65, 32).Ok? {
            CountedFinds(e, g, plan);
          }
        }
      }
    }
  }

  // ---- the walk over equal sides ----

  /** Sections whose lengths lead exactly to the end. */
  predicate SectionsFill(e: seq<byte>, at: nat, left: nat)
    decreases left, e
  {
    if left == 0 then at == |e|
    else at + 6 <= |e| && SectionsFill(e, at + 6 + Number(e, at + 2, 4), left - 1)
  }

  /** The counts and the section lengths lead exactly to the end of the bytes. */
  predicate Shaped(e: seq<byte>) {
    101 <= |e| && MetadataFills(e, MetadataAt(e))
  }

  lemma {:induction false} ElementsSelf(e: seq<byte>, c: Component, at: nat, i: nat, count: nat, width: nat)
    requires i <= count && width > 0
    ensures Elements(e, e, c, at, i, count, width).Ok? <==> i == count || at + Extent(count - i, width) <= |e|
    decreases count - i
  {
    if i < count {
      ElementsSelf(e, c, at + width, i + 1, count, width);
    }
  }

  lemma {:induction false} SectionsSelf(e: seq<byte>, at: nat, i: nat, count: nat)
    requires i <= count
    ensures Sections(e, e, at, i, count).Ok? <==> SectionsFill(e, at, count - i)
    decreases count - i
  {
    if i < count {
      var length := Number(e, at + 2, 4);
      SectionsSelf(e, at + 6 + length, i + 1, count);
      assert SectionsFill(e, at + 6 + length, count - i - 1) ==> at + 6 + length <= |e|;
    }
  }

  /** The bytes from `start` on are a metadata region. */
  predicate MetadataFills(e: seq<byte>, start: nat) {
    start + 2 <= |e| && SectionsFill(e, start + 2, Number(e, start, 2))
  }

  lemma OffsetSelf(e: seq<byte>, at: nat)
    ensures FromOffset(e, e, at).Ok? <==> MetadataFills(e, at + 8)
  {
    SectionsSelf(e, at + 10, 0, Number(e, at + 8, 2));
  }

  lemma JSelf(e: seq<byte>, at: nat, edges: nat)
    ensures FromJ(e, e, at, edges).Ok? <==> MetadataFills(e, at + 4 * edges + 8)
  {
    ExtentOf48(edges);
    ElementsSelf(e, J, at, 0, edges, 4);
    OffsetSelf(e, at + 4 * edges);
  }

  lemma HSelf(e: seq<byte>, at: nat, nodes: nat, edges: nat)
    ensures FromH(e, e, at, nodes, edges).Ok? <==> MetadataFills(e, at + 4 * nodes + 4 * edges + 8)
  {
    ExtentOf48(nodes);
    ElementsSelf(e, H, at, 0, nodes, 4);
    JSelf(e, at + 4 * nodes, edges);
  }

  lemma ListsSelf(e: seq<byte>, at: nat, nodes: nat, edges: nat)
    ensures Lists(e, e, at, nodes, edges).Ok? <==> MetadataFills(e, at + 8 * edges + 4 * nodes + 4 * edges + 8)
  {
    ExtentOf48(edges);
    ElementsSelf(e, Edges, at, 0, edges, 8);
    HSelf(e, at + 8 * edges, nodes, edges);
  }

  /** Equal sides are walked to the end exactly when the bytes have the shape of the format. */
  lemma RunSelf(e: seq<byte>)
    ensures Run(e, e).Ok? <==> Shaped(e)
  {
    var nodes := Number(e, 97, 4);
    ExtentOf48(nodes);
    ElementsSelf(e, NodeIds, 101, 0, nodes, 4);
    ListsSelf(e, EdgeCountAt(e) + 4, nodes, Number(e, EdgeCountAt(e), 4));
  }

  /** For arbitrary bytes, the walk finds nothing exactly when the sides are equal and have the shape of the format. */
  lemma NoneExactly(e: seq<byte>, g: seq<byte>)
    ensures Find(e, g).None? <==> e == g && Shaped(e)
  {
    FindsFirst(e, g);
    RunSelf(e);
  }

  /** Equal sides alone are not enough: on two empty strings the walk reports a length difference. */
  lemma EqualSidesCanDiffer()
    ensures Find([], []) == Some(LengthDiff(0, 0)) && !Shaped([])
  {
  }

  // ---- canonical bytes ----

  lemma NumberInside(e: seq<byte>, start: nat, region: seq<byte>, pos: nat, width: nat)
    requires At(e, start, region) && pos + width <= |region|
    ensures Number(e, start + pos, width) == LittleEndian.Value(region[pos..pos + width])
  {
    var x, y := e[start + pos..start + pos + width], region[pos..pos + width];
    forall k | 0 <= k < width
      ensures x[k] == y[k]
    {
      assert region[pos + k] == e[start + (pos + k)];
    }
    assert x == y;
  }

  /** The sections of an accepted region fill it wherever it ends the bytes. */
  lemma {:induction false} RegionFills(e: seq<byte>, start: nat, region: seq<byte>, pos: nat, left: nat, last: nat, kinds: seq<nat>)
    requires |e| == start + |region| && At(e, start, region) && Metadata.Succeeds(region, pos, left, last, kinds)
    ensures SectionsFill(e, start + pos, left)
    decreases left
  {
    if left > 0 {
      var one := Metadata.ReadSection(region, pos, last, kinds).value;
      NumberInside(e, start, region, pos + 2, 4);
      RegionFills(e, start, region, one.end, left - 1, one.value.kind, kinds);
    }
  }

  lemma CountInside(e: seq<byte>, at: nat, count: nat)
    requires count < U32 && At(e, at, WordsBytes([Count(count)]))
    ensures Number(e, at, 4) == count
  {
    var w := LittleEndian.Bytes(count, 4);
    assert WordsBytes([Count(count)]) == WordsBytes([]) + w == w;
    assert e[at..at + 4] == w;
    LittleEndian.Spans248();
    LittleEndian.ValueOfBytes(count, 4);
  }

  lemma CountsStand(p: Parts)
    requires Sized(p)
    ensures Number(Encoded(p), 97, 4) == |p.nodeIds|
    ensures Number(Encoded(p), 101 + 4 * |p.nodeIds|, 4) == |p.edges|
  {
    RegionAt(p, 4);
    CountInside(Encoded(p), 97, |p.nodeIds|);
    RegionAt(p, 6);
    CountInside(Encoded(p), 101 + 4 * |p.nodeIds|, |p.edges|);
  }

  /** The canonical bytes of well-sized parts have the shape of the format. */
  lemma CanonicalShaped(p: Parts, kinds: seq<nat>)
    requires Sized(p) && Metadata.Layout(p.metadata, kinds).Some?
    ensures Shaped(Encoded(p))
  {
    LengthIsExact(p);
    CountsStand(p);
    RegionAt(p, 11);
    ShapedFrom(Encoded(p), |p.nodeIds|, |p.edges|, p.metadata, kinds);
  }

  lemma ShapedFrom(e: seq<byte>, nodes: nat, edges: nat, region: seq<byte>, kinds: seq<nat>)
    requires Metadata.Layout(region, kinds).Some?
    requires Number(e, 97, 4) == nodes && Number(e, 101 + 4 * nodes, 4) == edges
    requires var start := 113 + 8 * nodes + 12 * edges; |e| == start + |region| && At(e, start, region)
    ensures Shaped(e)
  {
    var start := 113 + 8 * nodes + 12 * edges;
    assert MetadataAt(e) == start;
    NumberInside(e, start, region, 0, 2);
    RegionFills(e, start, region, 2, LittleEndian.Value(region[0..2]), 0, kinds);
  }

  /** On the canonical bytes of two accepted instances, nothing differs exactly when the parts agree. */
  lemma NoneExactlyWhenAgreeing(p: Parts, q: Parts, l: Limits, kinds: seq<nat>, pSent: Option<bytes32>, qSent: Option<bytes32>, hash: Hash)
    requires WithinFam37(l) && New(p, l, kinds, pSent, hash).Ok? && New(q, l, kinds, qSent, hash).Ok?
    ensures Find(Encoded(p), Encoded(q)).None? <==> Agree(p, q)
  {
    RecordsItsLength(p, l, kinds, pSent, hash);
    RecordsItsLength(q, l, kinds, qSent, hash);
    EncodingIsInjective(p, q);
    NoneExactly(Encoded(p), Encoded(q));
    CanonicalShaped(p, kinds);
  }

  // ---- the loops ----

  method WalkElements(e: seq<byte>, g: seq<byte>, c: Component, start: nat, count: nat, width: nat) returns (r: Result<(), Diff>)
    ensures r == Elements(e, g, c, start, 0, count, width)
  {
    var at: nat := start;
    for i := 0 to count
      invariant Elements(e, g, c, start, 0, count, width) == Elements(e, g, c, at, i, count, width)
    {
      var same :- Step(e, g, c, Some(i), at, width);
      at := at + width;
    }
    return Ok(());
  }

  method WalkMetadata(e: seq<byte>, g: seq<byte>, start: nat) returns (r: Result<(), Diff>)
    ensures r == MetadataWalk(e, g, start)
  {
    var counted :- Step(e, g, MetadataSectionCount, None, start, 2);
    var sections := Number(e, start, 2);
    var at: nat := start + 2;
    for section := 0 to sections
      invariant MetadataWalk(e, g, start) == Sections(e, g, at, section, sections)
    {
      var header :- Step(e, g, MetadataSection, Some(section), at, 6);
      var length := Number(e, at + 2, 4);
      var payload :- Step(e, g, MetadataSection, Some(section), at + 6, length);
      at := at + 6 + length;
    }
    if |e| != at || |g| != at {
      return Err(TooShort(e, g));
    }
    return Ok(());
  }
}
