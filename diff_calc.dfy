/**
 * The derivative and the algebraic simplifier of Differentiator, on trees
 * as values. Constant values stay opaque: a differentiator-made constant is
 * `Lit(n)`, a read one is the token strtod would convert, and the
 * simplifier's "is this constant 0 (or 1)" test, is_equal with a tolerance
 * in the program, is a parameter `equal`.
 */
module DiffCalc {
  import opened DiffTree

  /** TERM_CONST (n) */
  function Term(n: int): (t: Tree)
    ensures t.Node? && Vars(t) == {} && Size(t) == 1
  {
    Node(Const(Lit(n)), Nil, Nil)
  }

  /** OPER_NODE: diff_new_node never refuses an operator kind, so this is always the node. */
  function OperNode(o: Oper, a: Tree, b: Tree): (t: Tree)
    ensures t == NewNode(Op(o), a, b)
    ensures Vars(t) == Vars(a) + Vars(b) && Size(t) == 1 + Size(a) + Size(b)
  {
    Node(Op(o), a, b)
  }

  // ---------------------------------------------------------------------------
  // is_const_subtree and copy_tree

  /** is_const_subtree: NULL is not constant; a node is when its present children are and it is no variable */
  function IsConst(t: Tree): (r: bool)
    ensures r <==> t.Node? && Vars(t) == {}
  {
    match t
    case Nil => false
    case Node(k, l, r) => (l.Nil? || IsConst(l)) && (r.Nil? || IsConst(r)) && !k.Var?
  }

  /** No node of type TYPE_ERR */
  predicate NoErr(t: Tree) {
    match t
    case Nil => true
    case Node(k, l, r) => !k.KindErr? && NoErr(l) && NoErr(r)
  }

  /** copy_tree: rebuilt through diff_new_node, so an error node copies to NULL */
  function Copy(t: Tree): (c: Tree)
    ensures c == t <==> NoErr(t)
    ensures Vars(c) <= Vars(t) && Size(c) <= Size(t)
  {
    match t
    case Nil => Nil
    case Node(k, l, r) => NewNode(k, Copy(l), Copy(r))
  }

  // ---------------------------------------------------------------------------
  // diff_differentiate_tree

  function Derivative(t: Tree): (d: Tree)
    ensures Vars(d) <= Vars(t)
    decreases t, 2
  {
    if t.Nil? then Nil
    else if IsConst(t) then Term(0)
    else
      match t.kind
      case Const(_) => Term(0)
      case Var(c) => if c == 'x' then Term(1) else Nil
      case Op(o) => OperDerivative(t)
      case KindErr => Nil
  }

  /** The rule for an operator node */
  function OperDerivative(t: Tree): (d: Tree)
    requires t.Node? && t.kind.Op?
    ensures Vars(d) <= Vars(t)
    decreases t, 1
  {
    var l, r := t.left, t.right;
    match t.kind.oper
    case Plus => OperNode(Plus, Derivative(l), Derivative(r))
    case Minus => OperNode(Minus, Derivative(l), Derivative(r))
    case Mul => OperNode(Plus, OperNode(Mul, Derivative(l), Copy(r)), OperNode(Mul, Copy(l), Derivative(r)))
    case Div => QuotientRule(t)
    case Pow => PowerRule(t)
    case Ln => OperNode(Mul, OperNode(Div, Term(1), Copy(r)), Derivative(r))
    case Cos => OperNode(Mul, OperNode(Mul, Term(-1), OperNode(Sin, Nil, Copy(r))), Derivative(r))
    case Sin => OperNode(Mul, OperNode(Cos, Nil, Copy(r)), Derivative(r))
    case OperErr => Nil
  }

  /** (dl * r - l * dr) / r ^ 2 */
  function QuotientRule(t: Tree): (d: Tree)
    requires t.Node? && t.kind == Op(Div)
    ensures Vars(d) <= Vars(t)
    decreases t, 0
  {
    var l, r := t.left, t.right;
    var num := OperNode(Minus, OperNode(Mul, Derivative(l), Copy(r)), OperNode(Mul, Copy(l), Derivative(r)));
    OperNode(Div, num, OperNode(Pow, Copy(r), Term(2)))
  }

  /** a ^ g * ln a * dg for a constant base, c * f ^ (c - 1) * df for a constant exponent, NULL for f ^ g */
  function PowerRule(t: Tree): (d: Tree)
    requires t.Node? && t.kind == Op(Pow)
    ensures Vars(d) <= Vars(t)
    decreases t, 0
  {
    var l, r := t.left, t.right;
    if IsConst(l) && IsConst(r) then Term(0)
    else if IsConst(l) then OperNode(Mul, OperNode(Mul, Copy(t), OperNode(Ln, Nil, Copy(l))), Derivative(r))
    else if IsConst(r) then
      OperNode(Mul, OperNode(Mul, Copy(r), OperNode(Pow, Copy(l), OperNode(Minus, Copy(r), Term(1)))), Derivative(l))
    else Nil
  }

  /** A tree without a variable node has derivative 0, whatever its operators. */
  lemma ConstantDerivative(t: Tree)
    requires t.Node? && Vars(t) == {}
    ensures Derivative(t) == Term(0)
  {
  }

  /** x has derivative 1 and any other variable gives NULL. */
  lemma VariableRule(t: Tree)
    requires t.Node? && t.kind.Var?
    ensures t.kind.name == 'x' ==> Derivative(t) == Term(1)
    ensures t.kind.name != 'x' ==> Derivative(t).Nil?
  {
  }

  /**
   * The operator rules on a tree without error nodes, where every copy is the
   * subtree itself: the sum, difference, product and quotient rules, the two
   * power rules and NULL for f ^ g, and ln, cos and sin, which use the right
   * operand only.
   */
  lemma OperatorRules(t: Tree)
    requires t.Node? && t.kind.Op? && NoErr(t) && !IsConst(t)
    ensures var l, r, dl, dr := t.left, t.right, Derivative(t.left), Derivative(t.right);
      match t.kind.oper
      case Plus => Derivative(t) == Node(Op(Plus), dl, dr)
      case Minus => Derivative(t) == Node(Op(Minus), dl, dr)
      case Mul => Derivative(t) == Node(Op(Plus), Node(Op(Mul), dl, r), Node(Op(Mul), l, dr))
      case Div => Derivative(t) == Node(Op(Div), Node(Op(Minus), Node(Op(Mul), dl, r), Node(Op(Mul), l, dr)), Node(Op(Pow), r, Term(2)))
      case Pow =>
        && (IsConst(l) ==> Derivative(t) == Node(Op(Mul), Node(Op(Mul), t, Node(Op(Ln), Nil, l)), dr))
        && (IsConst(r) ==> Derivative(t) == Node(Op(Mul), Node(Op(Mul), r, Node(Op(Pow), l, Node(Op(Minus), r, Term(1)))), dl))
        && (!IsConst(l) && !IsConst(r) ==> Derivative(t).Nil?)
      case Ln => Derivative(t) == Node(Op(Mul), Node(Op(Div), Term(1), r), dr)
      case Cos => Derivative(t) == Node(Op(Mul), Node(Op(Mul), Term(-1), Node(Op(Sin), Nil, r)), dr)
      case Sin => Derivative(t) == Node(Op(Mul), Node(Op(Cos), Nil, r), dr)
      case OperErr => Derivative(t).Nil?
  {
    var l, r := t.left, t.right;
    assert Copy(l) == l && Copy(r) == r;
    assert Derivative(t) == OperDerivative(t);
    match t.kind.oper {
      case Div =>
        assert Derivative(t) == QuotientRule(t);
      case Pow =>
        PowerRules(t);
      case Ln =>
      case Cos =>
      case Sin =>
      case _ =>
    }
  }

  /** The two power rules and NULL for f ^ g, on a tree without error nodes */
  lemma PowerRules(t: Tree)
    requires t.Node? && t.kind == Op(Pow) && NoErr(t) && !IsConst(t)
    ensures var l, r, dl, dr := t.left, t.right, Derivative(t.left), Derivative(t.right);
      && (IsConst(l) ==> Derivative(t) == Node(Op(Mul), Node(Op(Mul), t, Node(Op(Ln), Nil, l)), dr))
      && (IsConst(r) ==> Derivative(t) == Node(Op(Mul), Node(Op(Mul), r, Node(Op(Pow), l, Node(Op(Minus), r, Term(1)))), dl))
      && (!IsConst(l) && !IsConst(r) ==> Derivative(t).Nil?)
  {
    var l, r := t.left, t.right;
    assert Copy(l) == l && Copy(r) == r && Copy(t) == t;
    assert Derivative(t) == OperDerivative(t) == PowerRule(t);
  }

  // ---------------------------------------------------------------------------
  // What the derivative means on polynomials

  /** Trees built from constants, x, +, - and * with both operands present */
  predicate Poly(t: Tree) {
    match t
    case Nil => false
    case Node(k, l, r) =>
      match k
      case Const(_) => l.Nil? && r.Nil?
      case Var(c) => c == 'x' && l.Nil? && r.Nil?
      case Op(o) => (o == Plus || o == Minus || o == Mul) && Poly(l) && Poly(r)
      case KindErr => false
  }

  /** The value of a constant: its own number, or what strtod gives for its token */
  function NumVal(v: Number, val: string -> int): int {
    match v
    case Lit(n) => n
    case Decimal(tok) => val(tok)
  }

  /** The value of a polynomial tree at x (other trees get 0) */
  function Eval(t: Tree, x: int, val: string -> int): int {
    match t
    case Nil => 0
    case Node(k, l, r) =>
      match k
      case Const(v) => NumVal(v, val)
      case Var(_) => x
      case Op(o) =>
        if o == Plus then Eval(l, x, val) + Eval(r, x, val)
        else if o == Minus then Eval(l, x, val) - Eval(r, x, val)
        else if o == Mul then Eval(l, x, val) * Eval(r, x, val)
        else 0
      case KindErr => 0
  }

  /** A tree without variable nodes has the same value at every x. */
  lemma {:induction false} VarFreeEval(t: Tree, x: int, y: int, val: string -> int)
    requires Vars(t) == {}
    ensures Eval(t, x, val) == Eval(t, y, val)
  {
    if t.Node? {
      assert Vars(t.left) == {} && Vars(t.right) == {};
      VarFreeEval(t.left, x, y, val);
      VarFreeEval(t.right, x, y, val);
    }
  }

  lemma {:induction false} PolyNoErr(t: Tree)
    requires Poly(t)
    ensures NoErr(t)
  {
    if t.kind.Op? {
      PolyNoErr(t.left);
      PolyNoErr(t.right);
    }
  }

  /** A polynomial's operator is +, - or *, and OperatorRules gives its derivative. */
  lemma PolyRules(t: Tree)
    requires Poly(t) && t.kind.Op? && !IsConst(t)
    ensures var l, r := t.left, t.right;
      match t.kind.oper
      case Plus => Derivative(t) == Node(Op(Plus), Derivative(l), Derivative(r))
      case Minus => Derivative(t) == Node(Op(Minus), Derivative(l), Derivative(r))
      case Mul => Derivative(t) == Node(Op(Plus), Node(Op(Mul), Derivative(l), r), Node(Op(Mul), l, Derivative(r)))
      case _ => false
  {
    PolyNoErr(t);
    OperatorRules(t);
  }

  /** A polynomial's derivative is a polynomial. */
  lemma {:induction false} PolyDerivative(t: Tree)
    requires Poly(t)
    ensures Poly(Derivative(t))
  {
    if !IsConst(t) && t.kind.Op? {
      PolyDerivative(t.left);
      PolyDerivative(t.right);
      PolyRules(t);
    }
  }

  /**
   * A polynomial tree's value at x, its slope there, and the part of its
   * value at x + h of order h^2 and higher divided by h^2, all computed
   * bottom-up by the sum and product rules.
   */
  datatype Jet = Jet(value: int, slope: int, rem: int)

  function Expansion(t: Tree, x: int, h: int, val: string -> int): Jet {
    match t
    case Nil => Jet(0, 0, 0)
    case Node(k, l, r) =>
      match k
      case Const(v) => Jet(NumVal(v, val), 0, 0)
      case Var(_) => Jet(x, 1, 0)
      case Op(o) =>
        var u, w := Expansion(l, x, h, val), Expansion(r, x, h, val);
        if o == Plus then Jet(u.value + w.value, u.slope + w.slope, u.rem + w.rem)
        else if o == Minus then Jet(u.value - w.value, u.slope - w.slope, u.rem - w.rem)
        else if o == Mul then MulJet(u, w, h)
        else Jet(0, 0, 0)
      case KindErr => Jet(0, 0, 0)
  }

  /** The product rule on jets */
  function MulJet(u: Jet, w: Jet, h: int): Jet {
    Jet(u.value * w.value, u.slope * w.value + u.value * w.slope,
        u.slope * w.slope + u.value * w.rem + u.rem * w.value
        + h * (u.slope * w.rem + u.rem * w.slope) + h * h * u.rem * w.rem)
  }

  /** value + h slope + h^2 rem */
  function Shifted(j: Jet, h: int): int {
    j.value + h * j.slope + h * h * j.rem
  }

  /** The jet's value is the tree's value. */
  lemma {:induction false} ExpansionValue(t: Tree, x: int, h: int, val: string -> int)
    ensures Expansion(t, x, h, val).value == Eval(t, x, val)
  {
    if t.Node? {
      ExpansionValue(t.left, x, h, val);
      ExpansionValue(t.right, x, h, val);
    }
  }

  lemma Distribute(a: int, u: int, b: int, w: int)
    ensures (a + u) * (b + w) == a * b + a * w + u * b + u * w
  {
  }

  lemma ScaleLeft(a: int, h: int, db: int, q: int)
    ensures a * (h * db + h * h * q) == h * (a * db) + h * h * (a * q)
  {
  }

  lemma ScaleRight(b: int, h: int, da: int, p: int)
    ensures (h * da + h * h * p) * b == h * (da * b) + h * h * (p * b)
  {
  }

  lemma ScaleBoth(h: int, da: int, p: int, db: int, q: int)
    ensures (h * da + h * h * p) * (h * db + h * h * q)
         == h * h * (da * db) + h * h * (h * (da * q + p * db)) + h * h * (h * h * p * q)
  {
  }

  /** (a + h A + h^2 P)(b + h B + h^2 Q), sorted by powers of h */
  lemma ProductExpansion(a: int, da: int, p: int, b: int, db: int, q: int, h: int)
    ensures (a + h * da + h * h * p) * (b + h * db + h * h * q)
         == a * b + h * (da * b + a * db) + h * h * (da * db + a * q + p * b + h * (da * q + p * db) + h * h * p * q)
  {
    Distribute(a, h * da + h * h * p, b, h * db + h * h * q);
    ScaleLeft(a, h, db, q);
    ScaleRight(b, h, da, p);
    ScaleBoth(h, da, p, db, q);
  }

  /** The product rule on a polynomial: (a b)' = a' b + a b' */
  lemma MulDerivative(t: Tree, x: int, val: string -> int)
    requires Poly(t) && t.kind == Op(Mul)
    ensures Eval(Derivative(t), x, val)
         == Eval(Derivative(t.left), x, val) * Eval(t.right, x, val) + Eval(t.left, x, val) * Eval(Derivative(t.right), x, val)
  {
    var l, r := t.left, t.right;
    if IsConst(t) {
      ConstantDerivative(l);
      ConstantDerivative(r);
    } else {
      PolyRules(t);
    }
  }

  /** The sum and difference rules on a polynomial */
  lemma AddDerivative(t: Tree, x: int, val: string -> int)
    requires Poly(t) && (t.kind == Op(Plus) || t.kind == Op(Minus))
    ensures t.kind == Op(Plus) ==>
      Eval(Derivative(t), x, val) == Eval(Derivative(t.left), x, val) + Eval(Derivative(t.right), x, val)
    ensures t.kind == Op(Minus) ==>
      Eval(Derivative(t), x, val) == Eval(Derivative(t.left), x, val) - Eval(Derivative(t.right), x, val)
  {
    if IsConst(t) {
      ConstantDerivative(t.left);
      ConstantDerivative(t.right);
    } else {
      PolyRules(t);
    }
  }

  /** The jet's slope is the value of the derivative tree. */
  lemma {:induction false} ExpansionSlope(t: Tree, x: int, h: int, val: string -> int)
    requires Poly(t)
    ensures Expansion(t, x, h, val).slope == Eval(Derivative(t), x, val)
  {
    if t.kind.Op? {
      ExpansionSlope(t.left, x, h, val);
      ExpansionSlope(t.right, x, h, val);
      if t.kind.oper == Mul {
        ExpansionValue(t.left, x, h, val);
        ExpansionValue(t.right, x, h, val);
        MulDerivative(t, x, val);
      } else {
        AddDerivative(t, x, val);
      }
    }
  }

  /** Multiplying two shifted values multiplies their jets. */
  lemma MulShifted(u: Jet, w: Jet, h: int)
    ensures Shifted(u, h) * Shifted(w, h) == Shifted(MulJet(u, w, h), h)
  {
    ProductExpansion(u.value, u.slope, u.rem, w.value, w.slope, w.rem, h);
  }

  /** Shifting is linear. */
  lemma AddShifted(u: Jet, w: Jet, h: int)
    ensures Shifted(u, h) + Shifted(w, h) == Shifted(Jet(u.value + w.value, u.slope + w.slope, u.rem + w.rem), h)
    ensures Shifted(u, h) - Shifted(w, h) == Shifted(Jet(u.value - w.value, u.slope - w.slope, u.rem - w.rem), h)
  {
    assert h * (u.slope + w.slope) == h * u.slope + h * w.slope;
    assert h * h * (u.rem + w.rem) == h * h * u.rem + h * h * w.rem;
    assert h * (u.slope - w.slope) == h * u.slope - h * w.slope;
    assert h * h * (u.rem - w.rem) == h * h * u.rem - h * h * w.rem;
  }

  /** t(x + h) = value + h slope + h^2 rem */
  lemma {:induction false} ExpansionShift(t: Tree, x: int, h: int, val: string -> int)
    requires Poly(t)
    ensures Eval(t, x + h, val) == Shifted(Expansion(t, x, h, val), h)
  {
    if t.kind.Op? {
      var l, r := t.left, t.right;
      ExpansionShift(l, x, h, val);
      ExpansionShift(r, x, h, val);
      var u, w := Expansion(l, x, h, val), Expansion(r, x, h, val);
      if t.kind.oper == Mul {
        MulShifted(u, w, h);
      } else {
        AddShifted(u, w, h);
      }
    }
  }

  /**
   * The derivative is exact to first order: for every polynomial tree,
   * t(x + h) = t(x) + h t'(x) + h^2 R for an integer R.
   */
  lemma DerivativeFirstOrder(t: Tree, x: int, h: int, val: string -> int)
    requires Poly(t)
    ensures Eval(t, x + h, val) == Eval(t, x, val) + h * Eval(Derivative(t), x, val) + h * h * Expansion(t, x, h, val).rem
  {
    ExpansionShift(t, x, h, val);
    ExpansionValue(t, x, h, val);
    ExpansionSlope(t, x, h, val);
  }

  // ---------------------------------------------------------------------------
  // simplify_plus, simplify_minus, simplify_mul, simplify_div, simplify_pow

  /** What a rule does to its node: nothing, replace it, or fail the assert in copy_node */
  datatype Step = Same | To(tree: Tree) | Abort

  /** IS_NODE_EQUAL (node, k) */
  predicate IsNum(t: Tree, k: int, equal: (Number, int) -> bool) {
    t.Node? && t.kind.Const? && equal(t.kind.value, k)
  }

  /** copy_node (node, src): the node takes over src's contents; a NULL src fails its assert. */
  function CopyOf(src: Tree): (s: Step)
    ensures s.Abort? <==> src.Nil?
    ensures s.To? ==> s.tree == src
  {
    if src.Nil? then Abort else To(src)
  }

  /** simplify_plus: 0 + R is R, L + 0 is L */
  function SimplifyPlus(l: Tree, r: Tree, equal: (Number, int) -> bool): (s: Step)
    ensures !s.Same? <==> IsNum(l, 0, equal) || IsNum(r, 0, equal)
    ensures s.To? ==> (IsNum(l, 0, equal) && s.tree == r) || (IsNum(r, 0, equal) && s.tree == l)
  {
    if IsNum(l, 0, equal) then CopyOf(r)
    else if IsNum(r, 0, equal) then CopyOf(l)
    else Same
  }

  /** simplify_minus: L - 0 is L */
  function SimplifyMinus(l: Tree, r: Tree, equal: (Number, int) -> bool): (s: Step)
    ensures !s.Same? <==> IsNum(r, 0, equal)
    ensures s.To? ==> s.tree == l
  {
    if IsNum(r, 0, equal) then CopyOf(l) else Same
  }

  /** simplify_mul: 1 * R is R, L * 1 is L, a zero factor gives 0 */
  function SimplifyMul(l: Tree, r: Tree, equal: (Number, int) -> bool): (s: Step)
    ensures !s.Same? <==> IsNum(l, 0, equal) || IsNum(l, 1, equal) || IsNum(r, 0, equal) || IsNum(r, 1, equal)
    ensures s.To? ==> (IsNum(l, 1, equal) && s.tree == r) || (IsNum(r, 1, equal) && s.tree == l)
                      || ((IsNum(l, 0, equal) || IsNum(r, 0, equal)) && s.tree == Term(0))
  {
    if IsNum(l, 1, equal) then CopyOf(r)
    else if IsNum(l, 0, equal) then To(Term(0))
    else if IsNum(r, 1, equal) then CopyOf(l)
    else if IsNum(r, 0, equal) then To(Term(0))
    else Same
  }

  /** simplify_div: 0 / R is 0, L / 1 is L */
  function SimplifyDiv(l: Tree, r: Tree, equal: (Number, int) -> bool): (s: Step)
    ensures !s.Same? <==> IsNum(l, 0, equal) || IsNum(r, 1, equal)
    ensures s.To? ==> (IsNum(l, 0, equal) && s.tree == Term(0)) || (IsNum(r, 1, equal) && s.tree == l)
  {
    if IsNum(l, 0, equal) then To(Term(0))
    else if IsNum(r, 1, equal) then CopyOf(l)
    else Same
  }

  /** simplify_pow: 1 ^ R and L ^ 0 are 1, 0 ^ R is 0, L ^ 1 is L */
  function SimplifyPow(l: Tree, r: Tree, equal: (Number, int) -> bool): (s: Step)
    ensures !s.Same? <==> IsNum(l, 0, equal) || IsNum(l, 1, equal) || IsNum(r, 0, equal) || IsNum(r, 1, equal)
    ensures s.To? ==> ((IsNum(l, 1, equal) || IsNum(r, 0, equal)) && s.tree == Term(1))
                      || (IsNum(l, 0, equal) && s.tree == Term(0)) || (IsNum(r, 1, equal) && s.tree == l)
  {
    if IsNum(l, 1, equal) then To(Term(1))
    else if IsNum(l, 0, equal) then To(Term(0))
    else if IsNum(r, 1, equal) then CopyOf(l)
    else if IsNum(r, 0, equal) then To(Term(1))
    else Same
  }

  /**
   * The rule simplify_operations picks for an operator node with children l
   * and r: a rewrite is smaller than the node and brings in no variable;
   * only a copy from a missing child fails.
   */
  function Rewrite(o: Oper, l: Tree, r: Tree, equal: (Number, int) -> bool): (s: Step)
    ensures s.To? ==> Size(s.tree) < 1 + Size(l) + Size(r) && Vars(s.tree) <= Vars(l) + Vars(r)
    ensures s.To? ==> s.tree.Node?
    ensures s.Abort? ==> l.Nil? || r.Nil?
    ensures !Binary(o) ==> s.Same?
  {
    match o
    case Plus => SimplifyPlus(l, r, equal)
    case Minus => SimplifyMinus(l, r, equal)
    case Mul => SimplifyMul(l, r, equal)
    case Div => SimplifyDiv(l, r, equal)
    case Pow => SimplifyPow(l, r, equal)
    case _ => Same
  }

  /**
   * The rewrites with both operands present, each tried only when the ones
   * before it in its function did not apply: 0 + R is R, L + 0 is L, L - 0
   * is L, 1 * R is R, 0 * R and L * 0 are 0, L * 1 is L, 0 / R is 0, L / 1
   * is L, 1 ^ R is 1, 0 ^ R is 0, L ^ 1 is L and L ^ 0 is 1; nothing else
   * changes the node.
   */
  lemma RewriteRules(l: Tree, r: Tree, equal: (Number, int) -> bool)
    requires l.Node? && r.Node?
    ensures var l0, l1, r0, r1 := IsNum(l, 0, equal), IsNum(l, 1, equal), IsNum(r, 0, equal), IsNum(r, 1, equal);
      Rewrite(Plus, l, r, equal) == (if l0 then To(r) else if r0 then To(l) else Same)
      && Rewrite(Minus, l, r, equal) == (if r0 then To(l) else Same)
      && Rewrite(Mul, l, r, equal) ==
         (if l1 then To(r) else if l0 then To(Term(0)) else if r1 then To(l) else if r0 then To(Term(0)) else Same)
      && Rewrite(Div, l, r, equal) == (if l0 then To(Term(0)) else if r1 then To(l) else Same)
      && Rewrite(Pow, l, r, equal) ==
         (if l1 then To(Term(1)) else if l0 then To(Term(0)) else if r1 then To(l) else if r0 then To(Term(1)) else Same)
  {
  }

  // ---------------------------------------------------------------------------
  // simplify_operations

  /** The tree after simplify_operations with the flag it returns, or the failed assert */
  datatype Simplified = Simplified(tree: Tree, changed: bool) | Aborted

  /**
   * simplify_operations: constants, variables and error nodes stay; an
   * operator node first has its present children simplified, left then
   * right, and then its own rule applied. The flag reports only that rule.
   */
  function Simplify(t: Tree, equal: (Number, int) -> bool): (s: Simplified)
    ensures t.Nil? ==> s.Aborted?
    ensures s.Simplified? ==> s.tree.Node? && Size(s.tree) <= Size(t) && Vars(s.tree) <= Vars(t)
    ensures s.Simplified? && s.changed ==> Size(s.tree) < Size(t)
    ensures s.Simplified? && s.changed ==> t.kind.Op? && Binary(t.kind.oper)
    ensures s.Simplified? && !s.changed ==> s.tree.kind == t.kind
  {
    match t
    case Nil => Aborted
    case Node(k, l, r) =>
      if !k.Op? then Simplified(t, false)
      else
        var sl := if l.Nil? then Simplified(Nil, false) else Simplify(l, equal);
        var sr := if r.Nil? then Simplified(Nil, false) else Simplify(r, equal);
        if sl.Aborted? || sr.Aborted? then Aborted
        else
          match Rewrite(k.oper, sl.tree, sr.tree, equal)
          case Same => Simplified(Node(k, sl.tree, sr.tree), false)
          case To(u) => Simplified(u, true)
          case Abort => Aborted
  }

  /** Every binary operator node has both operands */
  predicate Full(t: Tree) {
    match t
    case Nil => true
    case Node(k, l, r) => (k.Op? && Binary(k.oper) ==> l.Node? && r.Node?) && Full(l) && Full(r)
  }

  /** The asserts in copy_node can only fail at a binary operator with a missing operand. */
  lemma {:induction false} SimplifyFull(t: Tree, equal: (Number, int) -> bool)
    requires t.Node? && Full(t)
    ensures Simplify(t, equal).Simplified?
  {
    if t.kind.Op? {
      if t.left.Node? {
        SimplifyFull(t.left, equal);
      }
      if t.right.Node? {
        SimplifyFull(t.right, equal);
      }
    }
  }

  /** The zero and one tests answer yes only for constants of that value. */
  ghost predicate SoundTest(equal: (Number, int) -> bool, val: string -> int) {
    forall v, k :: equal(v, k) ==> NumVal(v, val) == k
  }

  /** On a polynomial each rule keeps the value and the polynomial shape. */
  lemma RewritePoly(o: Oper, l: Tree, r: Tree, equal: (Number, int) -> bool, x: int, val: string -> int)
    requires SoundTest(equal, val) && (o == Plus || o == Minus || o == Mul) && Poly(l) && Poly(r)
    ensures !Rewrite(o, l, r, equal).Abort?
    ensures Rewrite(o, l, r, equal).To? ==>
      Poly(Rewrite(o, l, r, equal).tree) &&
      Eval(Rewrite(o, l, r, equal).tree, x, val) == Eval(Node(Op(o), l, r), x, val)
  {
    if IsNum(l, 0, equal) {
      assert NumVal(l.kind.value, val) == 0;
    }
    if IsNum(r, 0, equal) {
      assert NumVal(r.kind.value, val) == 0;
    }
    if IsNum(l, 1, equal) {
      assert NumVal(l.kind.value, val) == 1;
    }
    if IsNum(r, 1, equal) {
      assert NumVal(r.kind.value, val) == 1;
    }
  }

  /** Simplifying a polynomial never fails, and gives a polynomial with the same value at every x. */
  lemma {:induction false} SimplifyPoly(t: Tree, equal: (Number, int) -> bool, x: int, val: string -> int)
    requires SoundTest(equal, val) && Poly(t)
    ensures Simplify(t, equal).Simplified?
    ensures Poly(Simplify(t, equal).tree) && Eval(Simplify(t, equal).tree, x, val) == Eval(t, x, val)
  {
    if t.kind.Op? {
      var l, r := t.left, t.right;
      SimplifyPoly(l, equal, x, val);
      SimplifyPoly(r, equal, x, val);
      var sl, sr := Simplify(l, equal).tree, Simplify(r, equal).tree;
      RewritePoly(t.kind.oper, sl, sr, equal, x, val);
    }
  }

  /** The flag is not "something changed": here the right operand 0 + x becomes x, and the flag stays false. */
  lemma FlagMissesChildRewrite()
    ensures var t := Node(Op(Mul), Node(Var('x'), Nil, Nil), Node(Op(Plus), Term(0), Node(Var('x'), Nil, Nil)));
      var s := Simplify(t, (v, k) => v == Lit(k));
      s.Simplified? && !s.changed && s.tree == Node(Op(Mul), Node(Var('x'), Nil, Nil), Node(Var('x'), Nil, Nil))
  {
  }
}
