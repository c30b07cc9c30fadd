/** DOM traversal and element references (projection.rs, targeting.rs). */
module Projection {
  import opened Collections
  import opened Text

  /** A CDP DOM node; node type 1 is an element, 9 a document. */
  datatype Node = Node(nodeType: int, localName: string, backendId: int, children: Kids)

  /** Children may be left out of a node's description. */
  datatype Kids = Unlisted | Listed(nodes: seq<Node>)

  predicate IsElement(n: Node) {
    n.nodeType == 1
  }

  predicate IsBody(n: Node) {
    IsElement(n) && EqIgnoreAsciiCase(n.localName, "body")
  }

  // ---------- preorder ----------

  function Preorder(n: Node): (r: seq<Node>)
    ensures r != [] && r[0] == n
    decreases n, 1
  {
    match n.children
    case Unlisted => [n]
    case Listed(kids) => [n] + PreorderAll(kids)
  }

  function PreorderAll(ns: seq<Node>): seq<Node>
    decreases ns, 0
  {
    if ns == [] then [] else Preorder(ns[0]) + PreorderAll(ns[1..])
  }

  function FirstBody(ns: seq<Node>): Option<Node> {
    if ns == [] then None else if IsBody(ns[0]) then Some(ns[0]) else FirstBody(ns[1..])
  }

  function FirstElement(ns: seq<Node>): Option<Node> {
    if ns == [] then None else if IsElement(ns[0]) then Some(ns[0]) else FirstElement(ns[1..])
  }

  lemma {:induction false} FirstBodyConcat(a: seq<Node>, b: seq<Node>)
    ensures FirstBody(a + b) == if FirstBody(a).Some? then FirstBody(a) else FirstBody(b)
  {
    if a == [] {
      assert a + b == b;
    } else {
      assert (a + b)[1..] == a[1..] + b;
      FirstBodyConcat(a[1..], b);
    }
  }

  lemma {:induction false} FirstBodyMeans(ns: seq<Node>) returns (i: nat)
    requires FirstBody(ns).Some?
    ensures i < |ns| && ns[i] == FirstBody(ns).value && IsBody(ns[i]) && forall k :: 0 <= k < i ==> !IsBody(ns[k])
  {
    if IsBody(ns[0]) {
      i := 0;
    } else {
      i := FirstBodyMeans(ns[1..]);
      i := i + 1;
    }
  }

  // ---------- root selection ----------

  /** `find_body_descendant`. */
  function FindBodyDescendant(n: Node): Option<Node>
    decreases n, 1
  {
    if IsBody(n) then Some(n)
    else match n.children
      case Unlisted => None
      case Listed(kids) => FindAmong(kids)
  }

  function FindAmong(ns: seq<Node>): Option<Node>
    decreases ns, 0
  {
    if ns == [] then None
    else match FindBodyDescendant(ns[0])
      case Some(found) => Some(found)
      case None => FindAmong(ns[1..])
  }

  /** `find_traversal_root`. */
  function FindTraversalRoot(n: Node): Option<Node> {
    if IsBody(n) then Some(n)
    else match n.children
      case Unlisted => if IsElement(n) then Some(n) else None
      case Listed(kids) =>
        match RootAmong(kids)
        case Some(found) => Some(found)
        case None =>
          if n.nodeType == 9 then FirstElement(kids) else if IsElement(n) then Some(n) else None
  }

  /** The child loop of `find_traversal_root`. */
  function RootAmong(ns: seq<Node>): Option<Node> {
    if ns == [] then None
    else if IsBody(ns[0]) then Some(ns[0])
    else match FindBodyDescendant(ns[0])
      case Some(found) => Some(found)
      case None => RootAmong(ns[1..])
  }

  lemma {:induction false} FindIsFirst(n: Node)
    ensures FindBodyDescendant(n) == FirstBody(Preorder(n))
    decreases n, 1
  {
    if !IsBody(n) && n.children.Listed? {
      FindAmongIsFirst(n.children.nodes);
      FirstBodyConcat([n], PreorderAll(n.children.nodes));
    }
  }

  lemma {:induction false} FindAmongIsFirst(ns: seq<Node>)
    ensures FindAmong(ns) == FirstBody(PreorderAll(ns))
    decreases ns, 0
  {
    if ns != [] {
      FindIsFirst(ns[0]);
      FindAmongIsFirst(ns[1..]);
      FirstBodyConcat(Preorder(ns[0]), PreorderAll(ns[1..]));
    }
  }

  lemma {:induction false} RootAmongIsFirst(ns: seq<Node>)
    ensures RootAmong(ns) == FirstBody(PreorderAll(ns))
  {
    if ns != [] {
      FindIsFirst(ns[0]);
      RootAmongIsFirst(ns[1..]);
      FirstBodyConcat(Preorder(ns[0]), PreorderAll(ns[1..]));
    }
  }

  ghost predicate BodyAt(ns: seq<Node>, i: int) {
    0 <= i < |ns| && ns[i].nodeType == 1 && AsciiLower(ns[i].localName) == "body"
  }

  ghost predicate ElementAt(ns: seq<Node>, i: int) {
    0 <= i < |ns| && ns[i].nodeType == 1
  }

  lemma BodyName()
    ensures AsciiLower("body") == "body"
  {
  }

  lemma {:induction false} FirstElementMeans(ns: seq<Node>, i: nat)
    requires i <= |ns| && forall k :: 0 <= k < i ==> !ElementAt(ns, k)
    ensures i == |ns| ==> FirstElement(ns) == None
    ensures ElementAt(ns, i) ==> FirstElement(ns) == Some(ns[i])
  {
    if i > 0 {
      assert !ElementAt(ns, 0);
      assert forall k :: 0 <= k < i - 1 ==> (ElementAt(ns[1..], k) <==> ElementAt(ns, k + 1));
      FirstElementMeans(ns[1..], i - 1);
    }
  }

  lemma {:induction false} FirstBodyAt(ns: seq<Node>, i: nat)
    requires i <= |ns| && forall k :: 0 <= k < i ==> !BodyAt(ns, k)
    ensures i == |ns| ==> FirstBody(ns) == None
    ensures BodyAt(ns, i) ==> FirstBody(ns) == Some(ns[i])
  {
    BodyName();
    if i > 0 {
      assert !BodyAt(ns, 0);
      assert forall k :: 0 <= k < i - 1 ==> (BodyAt(ns[1..], k) <==> BodyAt(ns, k + 1));
      FirstBodyAt(ns[1..], i - 1);
    }
  }

  lemma RootIsFirst(n: Node)
    ensures FindTraversalRoot(n)
         == if FirstBody(Preorder(n)).Some? then FirstBody(Preorder(n))
            else if n.nodeType == 9 && n.children.Listed? then FirstElement(n.children.nodes)
            else if IsElement(n) then Some(n) else None
  {
    if n.children.Listed? {
      RootAmongIsFirst(n.children.nodes);
      FirstBodyConcat([n], PreorderAll(n.children.nodes));
    }
  }

  /** The traversal root is the first body in preorder, if there is one. */
  lemma BodyIsRoot(n: Node, i: nat)
    requires BodyAt(Preorder(n), i) && forall k :: 0 <= k < i ==> !BodyAt(Preorder(n), k)
    ensures FindTraversalRoot(n) == Some(Preorder(n)[i])
  {
    RootIsFirst(n);
    FirstBodyAt(Preorder(n), i);
  }

  /** Without a body it is the first element child of a document that lists its children, else the element itself. */
  lemma RootWithoutBody(n: Node)
    requires forall k :: !BodyAt(Preorder(n), k)
    ensures if n.nodeType == 9 && n.children.Listed? then
              var kids := n.children.nodes;
              && (forall i :: ElementAt(kids, i) && (forall k :: 0 <= k < i ==> !ElementAt(kids, k)) ==>
                    FindTraversalRoot(n) == Some(kids[i]))
              && ((forall k :: !ElementAt(kids, k)) ==> FindTraversalRoot(n) == None)
            else FindTraversalRoot(n) == if n.nodeType == 1 then Some(n) else None
  {
    RootIsFirst(n);
    FirstBodyAt(Preorder(n), |Preorder(n)|);
    if n.nodeType == 9 && n.children.Listed? {
      var kids := n.children.nodes;
      forall i | ElementAt(kids, i) && forall k :: 0 <= k < i ==> !ElementAt(kids, k)
        ensures FirstElement(kids) == Some(kids[i])
      {
        FirstElementMeans(kids, i);
      }
      if forall k :: !ElementAt(kids, k) {
        FirstElementMeans(kids, |kids|);
      }
    }
  }

  // ---------- collected ids ----------

  /** The backend ids of the elements of a list. */
  function ElementIds(ns: seq<Node>): seq<int> {
    if ns == [] then []
    else if IsElement(ns[0]) then [ns[0].backendId] + ElementIds(ns[1..])
    else ElementIds(ns[1..])
  }

  lemma {:induction false} ElementIdsConcat(a: seq<Node>, b: seq<Node>)
    ensures ElementIds(a + b) == ElementIds(a) + ElementIds(b)
  {
    if a == [] {
      assert a + b == b;
    } else {
      assert (a + b)[1..] == a[1..] + b;
      ElementIdsConcat(a[1..], b);
    }
  }

  /** How many of the first `n` nodes are elements. */
  ghost function ElementsBefore(ns: seq<Node>, n: nat): nat
    requires n <= |ns|
  {
    if n == 0 then 0 else ElementsBefore(ns, n - 1) + if ns[n - 1].nodeType == 1 then 1 else 0
  }

  /** The ids are those of every element and no other node, in order. */
  lemma {:induction false} ElementIdsInOrder(ns: seq<Node>, n: nat, i: nat)
    requires n <= |ns|
    ensures |ElementIds(ns[..n])| == ElementsBefore(ns, n)
    ensures i < n && ns[i].nodeType == 1 ==>
              ElementsBefore(ns, i) < ElementsBefore(ns, n)
              && ElementIds(ns[..n])[ElementsBefore(ns, i)] == ns[i].backendId
    decreases n
  {
    if n > 0 {
      assert ns[..n] == ns[..n - 1] + [ns[n - 1]];
      ElementIdsConcat(ns[..n - 1], [ns[n - 1]]);
      assert [ns[n - 1]][1..] == [];
      ElementIdsInOrder(ns, n - 1, i);
    }
  }

  /** `collect_element_backend_ids`: push into the output vector. */
  method CollectElementBackendIds(n: Node, output: seq<int>) returns (ids: seq<int>)
    ensures ids == output + ElementIds(Preorder(n))
    decreases n, 1
  {
    ids := output;
    if IsElement(n) {
      ids := ids + [n.backendId];
    }
    match n.children
    case Unlisted =>
    case Listed(kids) =>
      ids := CollectAll(kids, ids);
      ElementIdsConcat([n], PreorderAll(kids));
  }

  method CollectAll(kids: seq<Node>, output: seq<int>) returns (ids: seq<int>)
    ensures ids == output + ElementIds(PreorderAll(kids))
    decreases kids, 0
  {
    ids := output;
    for i := 0 to |kids|
      invariant ids == output + ElementIds(PreorderAll(kids[..i]))
    {
      assert kids[..i + 1] == kids[..i] + [kids[i]];
      PreorderAllConcat(kids[..i], [kids[i]]);
      assert PreorderAll([kids[i]]) == Preorder(kids[i]);
      ElementIdsConcat(PreorderAll(kids[..i]), Preorder(kids[i]));
      ids := CollectElementBackendIds(kids[i], ids);
    }
    assert kids[..|kids|] == kids;
  }

  lemma {:induction false} PreorderAllConcat(a: seq<Node>, b: seq<Node>)
    ensures PreorderAll(a + b) == PreorderAll(a) + PreorderAll(b)
    decreases |a|
  {
    if a == [] {
      assert a + b == b;
    } else {
      assert (a + b)[1..] == a[1..] + b;
      PreorderAllConcat(a[1..], b);
    }
  }

  /** `part` stands in `whole` as one contiguous run. */
  ghost predicate Within(part: seq<Node>, whole: seq<Node>) {
    exists i :: OccursAt(whole, part, i)
  }

  lemma WithinFirst(part: seq<Node>, first: seq<Node>, second: seq<Node>)
    requires Within(part, first)
    ensures Within(part, first + second)
  {
    var i :| OccursAt(first, part, i);
    assert (first + second)[i..i + |part|] == part;
    assert OccursAt(first + second, part, i);
  }

  lemma WithinSecond(part: seq<Node>, first: seq<Node>, second: seq<Node>)
    requires Within(part, second)
    ensures Within(part, first + second)
  {
    var i :| OccursAt(second, part, i);
    var k := |first| + i;
    assert (first + second)[k..k + |part|] == part;
    assert OccursAt(first + second, part, k);
  }

  lemma WithinSelf(part: seq<Node>)
    ensures Within(part, part)
  {
    assert OccursAt(part, part, 0);
  }

  /** The preorder of a node of a tree is one run of the tree's preorder. */
  lemma {:induction false} SubtreeIsRun(n: Node, m: Node)
    requires m in Preorder(n)
    ensures Within(Preorder(m), Preorder(n))
    decreases n, 1
  {
    if m == n {
      WithinSelf(Preorder(n));
    } else {
      var kids := n.children.nodes;
      assert Preorder(n) == [n] + PreorderAll(kids);
      SubtreeAmongRuns(kids, m);
      WithinSecond(Preorder(m), [n], PreorderAll(kids));
    }
  }

  lemma {:induction false} SubtreeAmongRuns(ns: seq<Node>, m: Node)
    requires m in PreorderAll(ns)
    ensures Within(Preorder(m), PreorderAll(ns))
    decreases ns, 0
  {
    var first, rest := Preorder(ns[0]), PreorderAll(ns[1..]);
    if m in first {
      SubtreeIsRun(ns[0], m);
      WithinFirst(Preorder(m), first, rest);
    } else {
      SubtreeAmongRuns(ns[1..], m);
      WithinSecond(Preorder(m), first, rest);
    }
  }

  lemma {:induction false} FirstElementIn(ns: seq<Node>)
    ensures FirstElement(ns).Some? ==> FirstElement(ns).value in PreorderAll(ns)
  {
    if ns != [] {
      FirstElementIn(ns[1..]);
      assert Preorder(ns[0])[0] == ns[0];
    }
  }

  lemma TraversalRootIsInTree(n: Node)
    requires FindTraversalRoot(n).Some?
    ensures FindTraversalRoot(n).value in Preorder(n)
  {
    RootIsFirst(n);
    if FirstBody(Preorder(n)).Some? {
      var i := FirstBodyMeans(Preorder(n));
    } else if n.nodeType == 9 && n.children.Listed? {
      FirstElementIn(n.children.nodes);
    } else {
      assert Preorder(n)[0] == n;
    }
  }

  /** The ids collected from the traversal root are a contiguous slice of the ids of the whole tree. */
  lemma CollectedIsSlice(n: Node) returns (before: seq<int>, after: seq<int>)
    requires FindTraversalRoot(n).Some?
    ensures ElementIds(Preorder(n)) == before + ElementIds(Preorder(FindTraversalRoot(n).value)) + after
  {
    var root := FindTraversalRoot(n).value;
    TraversalRootIsInTree(n);
    SubtreeIsRun(n, root);
    var whole, part := Preorder(n), Preorder(root);
    var i :| OccursAt(whole, part, i);
    ElementIdsSlice(whole, part, i);
    before, after := ElementIds(whole[..i]), ElementIds(whole[i + |part|..]);
  }

  lemma ElementIdsSlice(whole: seq<Node>, part: seq<Node>, i: nat)
    requires OccursAt(whole, part, i)
    ensures ElementIds(whole) == ElementIds(whole[..i]) + ElementIds(part) + ElementIds(whole[i + |part|..])
  {
    assert whole == whole[..i] + (part + whole[i + |part|..]);
    ElementIdsConcat(whole[..i], part + whole[i + |part|..]);
    ElementIdsConcat(part, whole[i + |part|..]);
  }

  // ---------- element references ----------

  const I64_MIN: int := -0x8000_0000_0000_0000
  const I64_MAX: int := 0x7FFF_FFFF_FFFF_FFFF

  function Decimal(n: int): string {
    if n < 0 then "-" + Digits(-n, 10) else Digits(n, 10)
  }

  /** `parse::<i64>`. */
  function ParseI64(s: string): Option<int> {
    var negative := s != "" && s[0] == '-';
    var digits := if s != "" && (s[0] == '-' || s[0] == '+') then s[1..] else s;
    match DigitsValue(digits, 10)
    case None => None
    case Some(v) =>
      var n: int := if negative then 0 - v else v;
      if I64_MIN <= n <= I64_MAX then Some(n) else None
  }

  function ElementRef(frameId: string, backendId: int): string {
    frameId + ":" + Decimal(backendId)
  }

  /** `parse_backend_node_id`. */
  function ParseBackendNodeId(elementRef: Option<string>): Option<int> {
    match elementRef
    case None => None
    case Some(text) =>
      match SplitOnce(text, ':')
      case None => None
      case Some(pair) => ParseI64(pair.1)
  }

  /** `parse_element_ref_frame_id`. */
  function ParseElementRefFrameId(elementRef: Option<string>): Option<string> {
    match elementRef
    case None => None
    case Some(text) =>
      match SplitOnce(text, ':')
      case None => None
      case Some(pair) => if Trim(pair.0) == "" then None else Some(pair.0)
  }

  lemma DecimalRoundTrip(n: int)
    requires I64_MIN <= n <= I64_MAX
    ensures ParseI64(Decimal(n)) == Some(n)
  {
    if n < 0 {
      NegativeRoundTrip(n, Digits(-n, 10));
    } else {
      var digits := Digits(n, 10);
      DigitsRoundTrip(n, 10);
      assert digits[0] in digits;
    }
  }

  lemma NegativeRoundTrip(n: int, digits: string)
    requires I64_MIN <= n < 0 && digits == Digits(-n, 10)
    ensures ParseI64("-" + digits) == Some(n)
  {
    DigitsRoundTrip(-n, 10);
    assert ("-" + digits)[1..] == digits && ("-" + digits)[0] == '-';
  }

  lemma {:induction false} NotDigits(s: string)
    requires ':' in s
    ensures DigitsValue(s, 10) == None
  {
    var n := |s| - 1;
    if s[n] != ':' {
      assert s == s[..n] + [s[n]];
      NotDigits(s[..n]);
    }
  }

  lemma ColonIsNoNumber(s: string)
    requires ':' in s
    ensures ParseI64(s) == None
  {
    NotDigits(s);
    if s[0] != ':' {
      assert s == [s[0]] + s[1..];
      NotDigits(s[1..]);
    }
  }

  lemma ColonSplitsEarly(frameId: string, tail: string)
    requires ':' in frameId
    ensures var split := SplitOnce(frameId + ":" + tail, ':');
            split.Some? && ':' in split.value.1 && split.value.0 != frameId
  {
    var first := SplitOnce(frameId, ':').value;
    var rest := first.1 + ":" + tail;
    assert frameId + ":" + tail == first.0 + [':'] + rest;
    SplitOnceAt(first.0, ':', rest);
    assert rest[|first.1|] == ':';
  }

  /** The digits of a number, perhaps with a sign. */
  ghost predicate SignedDigits(s: string, n: int) {
    || DigitsValue(s, 10) == Some(n)
    || (s != "" && s[0] == '+' && DigitsValue(s[1..], 10) == Some(n))
    || (s != "" && s[0] == '-' && DigitsValue(s[1..], 10) == Some(-n))
  }

  lemma SignsAreNoDigits(s: string)
    requires s != "" && (s[0] == '+' || s[0] == '-')
    ensures DigitsValue(s, 10) == None
  {
    if |s| > 1 {
      SignsAreNoDigits(s[..|s| - 1]);
    }
  }

  lemma ParseI64Iff(s: string, n: int)
    ensures ParseI64(s) == Some(n) <==> SignedDigits(s, n) && -0x8000_0000_0000_0000 <= n <= 0x7FFF_FFFF_FFFF_FFFF
  {
    if s != "" && (s[0] == '+' || s[0] == '-') {
      SignsAreNoDigits(s);
    }
  }

  /** What any text is read as: the number after its first colon, and the text before it unless that is blank. */
  lemma RefIsRead(left: string, right: string, n: int)
    requires ':' !in left
    ensures ParseBackendNodeId(Some(left + ":" + right)) == Some(n) <==>
            SignedDigits(right, n) && -0x8000_0000_0000_0000 <= n <= 0x7FFF_FFFF_FFFF_FFFF
    ensures ParseElementRefFrameId(Some(left + ":" + right)) == if Blank(left) then None else Some(left)
  {
    SplitOnceAt(left, ':', right);
    ParseI64Iff(right, n);
    TrimEmptyIffBlank(left);
  }

  /** A reference gives back its id exactly when the frame id has no colon, and its frame also needs it not blank. */
  lemma RefRoundTrip(frameId: string, backendId: int)
    requires I64_MIN <= backendId <= I64_MAX
    ensures ParseBackendNodeId(Some(ElementRef(frameId, backendId))) == Some(backendId) <==> ':' !in frameId
    ensures ParseElementRefFrameId(Some(ElementRef(frameId, backendId))) == Some(frameId) <==>
            ':' !in frameId && !Blank(frameId)
  {
    TrimEmptyIffBlank(frameId);
    DecimalRoundTrip(backendId);
    if ':' !in frameId {
      SplitOnceAt(frameId, ':', Decimal(backendId));
    } else {
      ColonSplitsEarly(frameId, Decimal(backendId));
      ColonIsNoNumber(SplitOnce(ElementRef(frameId, backendId), ':').value.1);
    }
  }

  // ---------- count verification ----------

  datatype Warning = RootMismatch | CountMismatch | IndexOutOfRange | NoRootAuthority

  datatype Resolution = Resolution(
    refs: seq<Option<string>>, verified: bool, backendCount: nat, resolvedCount: nat, warning: Option<Warning>)

  const U32_RANGE: nat := 0x1_0000_0000

  function CountSome(refs: seq<Option<string>>): nat {
    if refs == [] then 0 else CountSome(refs[..|refs| - 1]) + if refs[|refs| - 1].Some? then 1 else 0
  }

  /** `resolve_from_counts`; the counts are truncated to 32 bits. */
  function ResolveFromCounts(
    frameId: string, domIndices: seq<nat>, jsCount: nat, backendIds: seq<int>, jsRoot: Option<int>, root: int)
    : Resolution
  {
    var backendCount := |backendIds| % U32_RANGE;
    var inRange := forall i :: 0 <= i < |domIndices| ==> domIndices[i] < |backendIds|;
    var sameDocument := jsRoot == Some(root);
    var verified := sameDocument && jsCount == backendCount && inRange;
    var warning :=
      if verified then None
      else if jsRoot.None? then Some(NoRootAuthority)
      else if jsRoot.value != root then Some(RootMismatch)
      else if jsCount != backendCount then Some(CountMismatch)
      else Some(IndexOutOfRange);
    var refs := seq(|domIndices|, i requires 0 <= i < |domIndices| =>
      if domIndices[i] < |backendIds| then Some(ElementRef(frameId, backendIds[domIndices[i]])) else None);
    Resolution(refs, verified, backendCount, CountSome(refs) % U32_RANGE, warning)
  }

  /** How many of the indices name an element. */
  ghost function InRange(domIndices: seq<nat>, n: nat): set<int> {
    set i | 0 <= i < |domIndices| && domIndices[i] < n
  }

  lemma {:induction false} CountIsSize(refs: seq<Option<string>>, domIndices: seq<nat>, n: nat)
    requires |refs| == |domIndices|
    requires forall i :: 0 <= i < |refs| ==> (refs[i].Some? <==> domIndices[i] < n)
    ensures CountSome(refs) == |InRange(domIndices, n)|
  {
    if refs != [] {
      var k := |refs| - 1;
      CountIsSize(refs[..k], domIndices[..k], n);
      assert InRange(domIndices, n) == InRange(domIndices[..k], n) + (if domIndices[k] < n then {k} else {});
    }
  }

  /**
   * A resolution is verified exactly when the page walked the same root, counted as many elements and gave no
   * index out of range; otherwise the warning names the first of these that failed.
   */
  lemma VerifiedIff(
    frameId: string, domIndices: seq<nat>, jsCount: nat, backendIds: seq<int>, jsRoot: Option<int>, root: int)
    ensures var r := ResolveFromCounts(frameId, domIndices, jsCount, backendIds, jsRoot, root);
            var sameCount := jsCount == |backendIds| % 0x1_0000_0000;
            var allInRange := forall i :: 0 <= i < |domIndices| ==> domIndices[i] < |backendIds|;
            && (r.verified <==> jsRoot == Some(root) && sameCount && allInRange)
            && (r.warning == None <==> r.verified)
            && (r.warning == Some(NoRootAuthority) <==> jsRoot == None)
            && (r.warning == Some(RootMismatch) <==> exists other :: other != root && jsRoot == Some(other))
            && (r.warning == Some(CountMismatch) <==> jsRoot == Some(root) && !sameCount)
            && (r.warning == Some(IndexOutOfRange) <==> jsRoot == Some(root) && sameCount && !allInRange)
            && r.backendCount == |backendIds| % 0x1_0000_0000
            && r.resolvedCount == |InRange(domIndices, |backendIds|)| % 0x1_0000_0000
  {
    var r := ResolveFromCounts(frameId, domIndices, jsCount, backendIds, jsRoot, root);
    CountIsSize(r.refs, domIndices, |backendIds|);
  }

  /**
   * A resolution names exactly the elements whose index is in range, and a verified one names them all. Each
   * reference leads back to the backend id, and to the frame, if the frame id has no colon and is not blank.
   */
  lemma VerifiedResolves(
    frameId: string, domIndices: seq<nat>, jsCount: nat, backendIds: seq<int>, jsRoot: Option<int>, root: int, i: nat)
    requires forall k :: 0 <= k < |backendIds| ==> I64_MIN <= backendIds[k] <= I64_MAX
    requires i < |domIndices|
    ensures var r := ResolveFromCounts(frameId, domIndices, jsCount, backendIds, jsRoot, root);
            && |r.refs| == |domIndices|
            && (r.refs[i].Some? <==> domIndices[i] < |backendIds|)
            && (r.refs[i].Some? && ':' !in frameId ==>
                 ParseBackendNodeId(r.refs[i]) == Some(backendIds[domIndices[i]]))
            && (r.refs[i].Some? && ':' !in frameId && !Blank(frameId) ==>
                 ParseElementRefFrameId(r.refs[i]) == Some(frameId))
            && (r.verified ==> r.refs[i].Some? && r.resolvedCount == |domIndices| % 0x1_0000_0000)
  {
    var r := ResolveFromCounts(frameId, domIndices, jsCount, backendIds, jsRoot, root);
    if r.refs[i].Some? {
      RefRoundTrip(frameId, backendIds[domIndices[i]]);
    }
    if r.verified {
      AllSome(r.refs);
    }
  }

  lemma {:induction false} AllSome(refs: seq<Option<string>>)
    requires forall i :: 0 <= i < |refs| ==> refs[i].Some?
    ensures CountSome(refs) == |refs|
  {
    if refs != [] {
      AllSome(refs[..|refs| - 1]);
    }
  }
}
