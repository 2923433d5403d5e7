/** Expression-tree nodes of the BLAS-1 layer.
    In the source every node is a class template whose operand types are
    template parameters; here they are type parameters of datatypes. The
    combining functors are opaque tags: their arithmetic is not part of this
    model. */
module Blas1Trees {

  datatype Option<T> = None | Some(value: T)

  /** The functor tags a reduction node can be instantiated with. */
  datatype Functor = AddOp2 | PrdOp2 | AddAbsOp2 | MaxIndOp2 | MinIndOp2

  const AllFunctors: set<Functor> := {AddOp2, PrdOp2, AddAbsOp2, MaxIndOp2, MinIndOp2}

  /** What a reduction node uses of its source subexpression: its logical
      extent (`getSize()`) and its element type (`value_type`). The payload
      `body` stands for the rest of the subexpression, which the node keeps
      but never inspects. */
  datatype SubExpr<B, V> = SubExpr(body: B, size: nat, valueType: V)

  /** `ReductionExpr<Functor, LHS, RHS>`: a destination `l` and a source
      subexpression `r`, both stored by value in the node. */
  datatype ReductionExpr<L, B, V> = ReductionExpr(functor: Functor, l: L, r: SubExpr<B, V>)
  {
    /** `getSize()` forwards to the source subexpression. */
    function GetSize(): nat { r.size }

    /** The node's `value_type` is the source's `value_type`. */
    function ValueType(): V { r.valueType }
  }

  /** `make_ReductionExpr<F>(l, r)`: builds the node through its constructor,
      which copies both operands. */
  function MakeReductionExpr<L, B, V>(f: Functor, l: L, r: SubExpr<B, V>): (node: ReductionExpr<L, B, V>)
    ensures node.functor == f && node.l == l && node.r == r
    ensures node.GetSize() == r.size && node.ValueType() == r.valueType
  {
    ReductionExpr(f, l, r)
  }

  function MakeAddReductionExpr<L, B, V>(l: L, r: SubExpr<B, V>): (node: ReductionExpr<L, B, V>)
    ensures node.functor == AddOp2 && node.l == l && node.r == r
  {
    MakeReductionExpr(AddOp2, l, r)
  }

  function MakePrdReductionExpr<L, B, V>(l: L, r: SubExpr<B, V>): (node: ReductionExpr<L, B, V>)
    ensures node.functor == PrdOp2 && node.l == l && node.r == r
  {
    MakeReductionExpr(PrdOp2, l, r)
  }

  function MakeAddAbsReductionExpr<L, B, V>(l: L, r: SubExpr<B, V>): (node: ReductionExpr<L, B, V>)
    ensures node.functor == AddAbsOp2 && node.l == l && node.r == r
  {
    MakeReductionExpr(AddAbsOp2, l, r)
  }

  function MakeMaxIndReductionExpr<L, B, V>(l: L, r: SubExpr<B, V>): (node: ReductionExpr<L, B, V>)
    ensures node.functor == MaxIndOp2 && node.l == l && node.r == r
  {
    MakeReductionExpr(MaxIndOp2, l, r)
  }

  function MakeMinIndReductionExpr<L, B, V>(l: L, r: SubExpr<B, V>): (node: ReductionExpr<L, B, V>)
    ensures node.functor == MinIndOp2 && node.l == l && node.r == r
  {
    MakeReductionExpr(MinIndOp2, l, r)
  }

  /** The size of a reduction node depends on its source only: two nodes
      with the same source have the same size whatever their destinations
      and functors. */
  lemma GetSizeIgnoresDestination<L, B, V>(f1: Functor, f2: Functor, l1: L, l2: L, r: SubExpr<B, V>)
    ensures MakeReductionExpr(f1, l1, r).GetSize() == MakeReductionExpr(f2, l2, r).GetSize() == r.size
    ensures MakeReductionExpr(f1, l1, r).ValueType() == MakeReductionExpr(f2, l2, r).ValueType() == r.valueType
  {
  }

  /** The five named builders differ exactly in the functor they select:
      each result equals any other builder's result with only the functor
      replaced, and no two select the same functor. */
  lemma NamedBuildersSelectDistinctFunctors<L, B, V>(l: L, r: SubExpr<B, V>)
    ensures var built := [MakeAddReductionExpr(l, r), MakePrdReductionExpr(l, r),
                          MakeAddAbsReductionExpr(l, r), MakeMaxIndReductionExpr(l, r),
                          MakeMinIndReductionExpr(l, r)];
            (forall i, j :: 0 <= i < j < 5 ==> built[i].functor != built[j].functor) &&
            (forall i, j :: 0 <= i < 5 && 0 <= j < 5 ==> built[i] == built[j].(functor := built[i].functor)) &&
            (set i | 0 <= i < 5 :: built[i].functor) == AllFunctors
  {
    var built := [MakeAddReductionExpr(l, r), MakePrdReductionExpr(l, r),
                  MakeAddAbsReductionExpr(l, r), MakeMaxIndReductionExpr(l, r),
                  MakeMinIndReductionExpr(l, r)];
    var selected := set i | 0 <= i < 5 :: built[i].functor;
    assert built[0].functor in selected && built[1].functor in selected && built[2].functor in selected;
    assert built[3].functor in selected && built[4].functor in selected;
  }

  /** An n-ary node `expressionT<[exprT,] subexprsTN...>(subexprs...)`: the
      node template `kind`, the operator tag when one is given, and the
      constructor arguments in the order they were passed. */
  datatype ExprNode<K, O, S> = ExprNode(kind: K, op: Option<O>, subs: seq<S>)

  /** One entry of a node type's template argument list. */
  datatype TemplateArg<O, S> = OpArg(op: O) | SubArg(sub: S)

  /** The template arguments `subexprsTN...` that a pack of subexpressions
      expands to, in pack order. */
  function SubArgs<O, S>(subs: seq<S>): (args: seq<TemplateArg<O, S>>)
    ensures |args| == |subs|
    ensures forall i :: 0 <= i < |subs| ==> args[i] == SubArg(subs[i])
  {
    if subs == [] then [] else [SubArg(subs[0])] + SubArgs(subs[1..])
  }

  /** The full template argument list of a node's type: the operator tag
      first when there is one, then one entry per subexpression. */
  function TemplateArgs<K, O, S>(node: ExprNode<K, O, S>): seq<TemplateArg<O, S>>
  {
    match node.op
    case None => SubArgs(node.subs)
    case Some(o) => [OpArg(o)] + SubArgs(node.subs)
  }

  /** `make_expr<expressionT>(subexprs...)`: no operator tag; the node's
      type arguments and constructor arguments are the subexpressions in
      the given number and order. */
  function MakeExpr<K, O, S>(kind: K, subs: seq<S>): (node: ExprNode<K, O, S>)
    ensures node.kind == kind && node.op.None? && node.subs == subs
    ensures |TemplateArgs(node)| == |subs|
    ensures forall i :: 0 <= i < |subs| ==> TemplateArgs(node)[i] == SubArg(subs[i])
  {
    ExprNode(kind, None, subs)
  }

  /** `make_expr<expressionT, exprT>(subexprs...)`: the operator tag is the
      first type argument, followed by the subexpressions in order; the
      constructor receives the subexpressions only. */
  function MakeOpExpr<K, O, S>(kind: K, op: O, subs: seq<S>): (node: ExprNode<K, O, S>)
    ensures node.kind == kind && node.op == Some(op) && node.subs == subs
    ensures |TemplateArgs(node)| == |subs| + 1 && TemplateArgs(node)[0] == OpArg(op)
    ensures forall i :: 0 <= i < |subs| ==> TemplateArgs(node)[i + 1] == SubArg(subs[i])
  {
    ExprNode(kind, Some(op), subs)
  }

  /** `make_expr<expressionT, exprT>(subexpr0, subexprs...)` with the first
      subexpression taken by value: it stays the first constructor argument
      and the first type argument after the operator tag. */
  function MakeOpExprFirstByValue<K, O, S>(kind: K, op: O, sub0: S, subs: seq<S>): (node: ExprNode<K, O, S>)
    ensures node.kind == kind && node.op == Some(op)
    ensures |node.subs| == |subs| + 1 && node.subs[0] == sub0 && node.subs[1..] == subs
    ensures |TemplateArgs(node)| == |subs| + 2
    ensures TemplateArgs(node)[0] == OpArg(op) && TemplateArgs(node)[1] == SubArg(sub0)
    ensures forall i :: 0 <= i < |subs| ==> TemplateArgs(node)[i + 2] == SubArg(subs[i])
  {
    ExprNode(kind, Some(op), [sub0] + subs)
  }
}
