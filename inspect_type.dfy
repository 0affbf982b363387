/**
  The type rule for a recursive primary expression: a head expression followed by a
  wrapper of trailing operations (field access, item access, invocation).

  The syntax tree is seen through an abstract, read-only index: the child of a node at
  a given attribute index, and the ordered children of a node. The type of any other
  node comes from a type oracle, which stands for the recursive inspection of that node.
*/
module InspectType {
  import Wrappers

  type NodeId = nat

  /** The syntax kinds this rule distinguishes; every other kind is `OtherKind`. */
  datatype NodeKind = RecursivePrimaryExpression | ArrayWrapper | OtherKind(name: string)

  /** A node of the tree: complete (`Ast`) or still being built by error-tolerant parsing (`Context`). */
  datatype XorNode = Ast(id: NodeId, kind: NodeKind) | Context(id: NodeId, kind: NodeKind)

  /** The read-only tree index the rule consults. */
  datatype NodeIdMapCollection = NodeIdMapCollection(
    childByAttributeIndex: map<(NodeId, nat), XorNode>,
    childrenById: map<NodeId, seq<XorNode>>)

  /**
    A type. `None` is a definite type error and `Unknown` is a lack of information; every
    other member of the type catalogue is `Other`, told apart by its kind name.
  */
  datatype TType = None | Unknown | Other(kind: string)

  /** The inspection of a node other than the one this rule is typing. */
  type TypeOracle = XorNode -> TType

  /**
    A broken tree: the child stored at an attribute index has a kind its parent does not
    allow there. This is a fatal inconsistency, not a language-level condition.
  */
  datatype TreeError = ChildKindMismatch(parentId: NodeId, attributeIndex: nat, kind: NodeKind)

  /**
    The child of `parentId` at `attributeIndex`, if there is one. When kinds are given, a
    child of any other kind is a broken tree.
  */
  function MaybeChildByAttributeIndex(
    tree: NodeIdMapCollection, parentId: NodeId, attributeIndex: nat, kinds: Wrappers.Option<set<NodeKind>>
  ): (r: Wrappers.Result<Wrappers.Option<XorNode>, TreeError>)
    ensures r == Wrappers.Success(Wrappers.None) <==> (parentId, attributeIndex) !in tree.childByAttributeIndex
    ensures r.Success? && r.value.Some? ==>
              && (parentId, attributeIndex) in tree.childByAttributeIndex
              && r.value.value == tree.childByAttributeIndex[(parentId, attributeIndex)]
              && (kinds.Some? ==> r.value.value.kind in kinds.value)
    ensures r.Failure? ==>
              && kinds.Some?
              && (parentId, attributeIndex) in tree.childByAttributeIndex
              && var child := tree.childByAttributeIndex[(parentId, attributeIndex)];
                 child.kind !in kinds.value && r.error == ChildKindMismatch(parentId, attributeIndex, child.kind)
  {
    if (parentId, attributeIndex) !in tree.childByAttributeIndex then Wrappers.Success(Wrappers.None)
    else
      var child := tree.childByAttributeIndex[(parentId, attributeIndex)];
      if kinds.Some? && child.kind !in kinds.value then Wrappers.Failure(ChildKindMismatch(parentId, attributeIndex, child.kind))
      else Wrappers.Success(Wrappers.Some(child))
  }

  /** The ordered children of `parentId`, if the index holds them. */
  function MaybeChildren(tree: NodeIdMapCollection, parentId: NodeId): (children: Wrappers.Option<seq<XorNode>>)
    ensures children.Some? <==> parentId in tree.childrenById
    ensures children.Some? ==> children.value == tree.childrenById[parentId]
  {
    if parentId in tree.childrenById then Wrappers.Some(tree.childrenById[parentId]) else Wrappers.None
  }

  /** The head of a recursive primary expression: its child at attribute index 0, of any kind. */
  function Head(tree: NodeIdMapCollection, node: XorNode): Wrappers.Option<XorNode>
  {
    match MaybeChildByAttributeIndex(tree, node.id, 0, Wrappers.None)
    case Success(head) => head
  }

  /** The wrapper of trailing operations: the child at attribute index 1, which must be an `ArrayWrapper`. */
  function Wrapper(tree: NodeIdMapCollection, node: XorNode): Wrappers.Result<Wrappers.Option<XorNode>, TreeError>
  {
    MaybeChildByAttributeIndex(tree, node.id, 1, Wrappers.Some({ArrayWrapper}))
  }

  /** The trailing operations: the children of the wrapper, if both are present. */
  function Trailing(tree: NodeIdMapCollection, node: XorNode): Wrappers.Option<seq<XorNode>>
  {
    match Wrapper(tree, node)
    case Success(Some(wrapper)) => MaybeChildren(tree, wrapper.id)
    case _ => Wrappers.None
  }

  /** `None` and `Unknown` absorb: no operation applied to them can refine them. */
  predicate IsAbsorbing(t: TType)
  {
    t.None? || t.Unknown?
  }

  /** The type of the last of `expressions`, or `headType` when there are none. */
  function LastOrHead(expressions: seq<XorNode>, inspect: TypeOracle, headType: TType): TType
  {
    if expressions == [] then headType else inspect(expressions[|expressions| - 1])
  }

  /**
    The type the rule assigns to a recursive primary expression, or the broken tree it
    stopped at.
  */
  function RecursivePrimaryExpressionType(
    tree: NodeIdMapCollection, node: XorNode, inspect: TypeOracle
  ): (r: Wrappers.Result<TType, TreeError>)
    // without a head there is nothing to reason from
    ensures Head(tree, node).None? ==> r == Wrappers.Success(Unknown)
    // the only error is a child at attribute index 1 of this node that is not an `ArrayWrapper`
    ensures r.Failure? ==>
              && (node.id, 1) in tree.childByAttributeIndex
              && tree.childByAttributeIndex[(node.id, 1)].kind != ArrayWrapper
              && r.error == ChildKindMismatch(node.id, 1, tree.childByAttributeIndex[(node.id, 1)].kind)
    // a type error or a lack of information in the head is passed on as it is
    ensures Head(tree, node).Some? && IsAbsorbing(inspect(Head(tree, node).value)) ==>
              r == Wrappers.Success(inspect(Head(tree, node).value))
  {
    match Head(tree, node)
    case None => Wrappers.Success(Unknown)
    case Some(head) =>
      var headType := inspect(head);
      if IsAbsorbing(headType) then Wrappers.Success(headType)
      else match Wrapper(tree, node)
        case Failure(e) => Wrappers.Failure(e)
        case Success(None) => Wrappers.Success(Unknown)
        case Success(Some(wrapper)) =>
          match MaybeChildren(tree, wrapper.id)
          case None => Wrappers.Success(Unknown)
          case Some(expressions) => Wrappers.Success(LastOrHead(expressions, inspect, headType))
  }

  /**
    Types a recursive primary expression. Besides the type (or the broken tree it stopped
    at) it returns the nodes it handed to the type oracle, in the order it did so.
  */
  method InspectTypeRecursivePrimaryExpression(tree: NodeIdMapCollection, node: XorNode, inspect: TypeOracle)
    returns (r: Wrappers.Result<TType, TreeError>, inspected: seq<XorNode>)
    requires node.kind == RecursivePrimaryExpression
    ensures r == RecursivePrimaryExpressionType(tree, node, inspect)
    // nothing is inspected without a head; otherwise the head is inspected first
    ensures Head(tree, node).None? ==> inspected == []
    ensures Head(tree, node).Some? ==> |inspected| >= 1 && inspected[0] == Head(tree, node).value
    // an absorbing head type stops the rule before any trailing operation is inspected
    ensures Head(tree, node).Some? && IsAbsorbing(inspect(Head(tree, node).value)) ==> |inspected| == 1
    ensures Trailing(tree, node).None? ==> |inspected| <= 1
    // otherwise every trailing operation is inspected exactly once, left to right
    ensures Head(tree, node).Some? && !IsAbsorbing(inspect(Head(tree, node).value)) && Trailing(tree, node).Some? ==>
              inspected[1..] == Trailing(tree, node).value
  {
    inspected := [];
    var maybeHead := Head(tree, node);
    if maybeHead.None? {
      return Wrappers.Success(Unknown), inspected;
    }

    var headType := inspect(maybeHead.value);
    inspected := inspected + [maybeHead.value];
    if headType.None? || headType.Unknown? {
      return Wrappers.Success(headType), inspected;
    }

    var maybeArrayWrapper := MaybeChildByAttributeIndex(tree, node.id, 1, Wrappers.Some({ArrayWrapper}));
    if maybeArrayWrapper.Failure? {
      return Wrappers.Failure(maybeArrayWrapper.error), inspected;
    }
    if maybeArrayWrapper.value.None? {
      return Wrappers.Success(Unknown), inspected;
    }

    var maybeExpressions := MaybeChildren(tree, maybeArrayWrapper.value.value.id);
    if maybeExpressions.None? {
      return Wrappers.Success(Unknown), inspected;
    }

    var expressions := maybeExpressions.value;
    var leftType := headType;
    for i := 0 to |expressions|
      invariant leftType == LastOrHead(expressions[..i], inspect, headType)
      invariant inspected == [maybeHead.value] + expressions[..i]
    {
      var rightType := inspect(expressions[i]);
      inspected := inspected + [expressions[i]];
      leftType := rightType;
    }
    assert expressions[..|expressions|] == expressions;
    return Wrappers.Success(leftType), inspected;
  }

  // ---------------------------------------------------------------------------
  // Properties of the rule
  // ---------------------------------------------------------------------------

  /** Without a head there is nothing to reason from: the type is `Unknown`. */
  lemma MissingHeadIsUnknown(tree: NodeIdMapCollection, node: XorNode, inspect: TypeOracle)
    requires (node.id, 0) !in tree.childByAttributeIndex
    ensures RecursivePrimaryExpressionType(tree, node, inspect) == Wrappers.Success(Unknown)
  {
  }

  /**
    A head typed `None` or `Unknown` is returned unchanged, whatever the tree holds beyond
    the head and whatever any other node's type is.
  */
  lemma AbsorbingHead(
    tree: NodeIdMapCollection, tree': NodeIdMapCollection, node: XorNode, inspect: TypeOracle, inspect': TypeOracle)
    requires (node.id, 0) in tree.childByAttributeIndex
    requires IsAbsorbing(inspect(tree.childByAttributeIndex[(node.id, 0)]))
    requires Head(tree', node) == Head(tree, node)
    requires inspect'(tree.childByAttributeIndex[(node.id, 0)]) == inspect(tree.childByAttributeIndex[(node.id, 0)])
    ensures RecursivePrimaryExpressionType(tree, node, inspect)
            == Wrappers.Success(inspect(tree.childByAttributeIndex[(node.id, 0)]))
    ensures RecursivePrimaryExpressionType(tree', node, inspect') == RecursivePrimaryExpressionType(tree, node, inspect)
  {
  }

  /** A typed head with no child at attribute index 1 gives `Unknown`, not the head's type. */
  lemma MissingWrapperIsUnknown(tree: NodeIdMapCollection, node: XorNode, inspect: TypeOracle)
    requires (node.id, 0) in tree.childByAttributeIndex
    requires !IsAbsorbing(inspect(tree.childByAttributeIndex[(node.id, 0)]))
    requires (node.id, 1) !in tree.childByAttributeIndex
    ensures RecursivePrimaryExpressionType(tree, node, inspect) == Wrappers.Success(Unknown)
  {
  }

  /** A typed head whose wrapper's children cannot be found gives `Unknown`. */
  lemma MissingChildrenIsUnknown(tree: NodeIdMapCollection, node: XorNode, inspect: TypeOracle)
    requires (node.id, 0) in tree.childByAttributeIndex
    requires !IsAbsorbing(inspect(tree.childByAttributeIndex[(node.id, 0)]))
    requires (node.id, 1) in tree.childByAttributeIndex
    requires tree.childByAttributeIndex[(node.id, 1)].kind == ArrayWrapper
    requires tree.childByAttributeIndex[(node.id, 1)].id !in tree.childrenById
    ensures RecursivePrimaryExpressionType(tree, node, inspect) == Wrappers.Success(Unknown)
  {
  }

  /**
    With a typed head and trailing operations, the type is that of the last operation:
    changing the types of the earlier operations changes nothing.
  */
  lemma LastTrailingDecides(
    tree: NodeIdMapCollection, node: XorNode, inspect: TypeOracle, inspect': TypeOracle)
    requires Head(tree, node).Some? && !IsAbsorbing(inspect(Head(tree, node).value))
    requires Trailing(tree, node).Some? && Trailing(tree, node).value != []
    requires inspect'(Head(tree, node).value) == inspect(Head(tree, node).value)
    requires var es := Trailing(tree, node).value; inspect'(es[|es| - 1]) == inspect(es[|es| - 1])
    ensures var es := Trailing(tree, node).value;
            RecursivePrimaryExpressionType(tree, node, inspect) == Wrappers.Success(inspect(es[|es| - 1]))
    ensures RecursivePrimaryExpressionType(tree, node, inspect') == RecursivePrimaryExpressionType(tree, node, inspect)
  {
  }

  /** With a typed head and an empty wrapper, the type is the head's. */
  lemma EmptyTrailingIsHead(tree: NodeIdMapCollection, node: XorNode, inspect: TypeOracle)
    requires Head(tree, node).Some?
    requires Trailing(tree, node) == Wrappers.Some([])
    ensures RecursivePrimaryExpressionType(tree, node, inspect) == Wrappers.Success(inspect(Head(tree, node).value))
  {
  }

  /**
    A typed head next to a child at attribute index 1 that is not an `ArrayWrapper` is a
    broken tree: the rule stops with that error instead of degrading to `Unknown`.
  */
  lemma MismatchedWrapperFails(tree: NodeIdMapCollection, node: XorNode, inspect: TypeOracle)
    requires (node.id, 0) in tree.childByAttributeIndex
    requires !IsAbsorbing(inspect(tree.childByAttributeIndex[(node.id, 0)]))
    requires (node.id, 1) in tree.childByAttributeIndex
    requires tree.childByAttributeIndex[(node.id, 1)].kind != ArrayWrapper
    ensures RecursivePrimaryExpressionType(tree, node, inspect)
            == Wrappers.Failure(ChildKindMismatch(node.id, 1, tree.childByAttributeIndex[(node.id, 1)].kind))
  {
  }

  /**
    The rule fails only on a broken tree, and only on that one: a typed head next to a
    child at attribute index 1 of a kind other than `ArrayWrapper`.
  */
  lemma FailsExactlyOnMismatchedWrapper(tree: NodeIdMapCollection, node: XorNode, inspect: TypeOracle)
    ensures RecursivePrimaryExpressionType(tree, node, inspect).Failure? <==>
              && Head(tree, node).Some?
              && !IsAbsorbing(inspect(Head(tree, node).value))
              && (node.id, 1) in tree.childByAttributeIndex
              && tree.childByAttributeIndex[(node.id, 1)].kind != ArrayWrapper
  {
  }

  /**
    The rule never invents a type: when it succeeds, its result is `Unknown`, the head's
    type, or the type of one of the trailing operations.
  */
  lemma ResultHasASource(tree: NodeIdMapCollection, node: XorNode, inspect: TypeOracle)
    ensures var r := RecursivePrimaryExpressionType(tree, node, inspect);
            r.Success? ==>
              || r.value == Unknown
              || (Head(tree, node).Some? && r.value == inspect(Head(tree, node).value))
              || (Trailing(tree, node).Some? && exists e :: e in Trailing(tree, node).value && r.value == inspect(e))
  {
    if Head(tree, node).Some? && !IsAbsorbing(inspect(Head(tree, node).value)) && Trailing(tree, node).Some? {
      var es := Trailing(tree, node).value;
      if es != [] {
        assert es[|es| - 1] in es;
      }
    }
  }
}
