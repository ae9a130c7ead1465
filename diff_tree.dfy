/**
 * The expression trees of Differentiator and their reader. A node is a
 * constant, a variable or an operator with a left and a right child pointer,
 * either of which may be NULL. build_tree_from_array reads the fully
 * parenthesised form `( [left] token [right] )` at a shared cursor.
 */
module DiffTree {
  import opened Common

  /**
   * The double a constant node holds: a value the differentiator writes
   * itself, or what strtod makes of a token, which the model leaves unevaluated
   */
  datatype Number = Lit(n: int) | Decimal(token: string)

  datatype Oper = Plus | Minus | Mul | Div | Pow | Ln | Cos | Sin | OperErr

  /** type_t together with the member of data_t it selects */
  datatype Kind = Const(value: Number) | Var(name: char) | Op(oper: Oper) | KindErr

  /** A node_t pointer: NULL, or a node with its two child pointers */
  datatype Tree = Nil | Node(kind: Kind, left: Tree, right: Tree)

  predicate Binary(o: Oper) {
    o == Plus || o == Minus || o == Mul || o == Div || o == Pow
  }

  predicate Unary(o: Oper) {
    o == Ln || o == Cos || o == Sin
  }

  /** diff_new_node: NULL for TYPE_ERR, otherwise a node holding exactly what it was given */
  function NewNode(kind: Kind, left: Tree, right: Tree): (r: Tree)
    ensures r.Nil? <==> kind.KindErr?
    ensures r.Node? ==> r.kind == kind && r.left == left && r.right == right
  {
    if kind.KindErr? then Nil else Node(kind, left, right)
  }

  /** The number of nodes */
  function Size(t: Tree): nat {
    match t
    case Nil => 0
    case Node(_, l, r) => 1 + Size(l) + Size(r)
  }

  /** The names of the variable nodes */
  function Vars(t: Tree): set<char> {
    match t
    case Nil => {}
    case Node(k, l, r) => (if k.Var? then {k.name} else {}) + Vars(l) + Vars(r)
  }

  // ---------------------------------------------------------------------------
  // build_tree_from_array

  /** SUB_EXPR_LEN: the size of sub_expr_buf, which %[^)(] fills with the token and its NUL; a char stands for a byte */
  const SubExprLen: nat := 20

  /** Where %[^)(] stops: a parenthesis or the terminating NUL */
  predicate Delim(c: char) {
    c == '(' || c == ')' || c == '\0'
  }

  /** The end of the token %[^)(] reads from p */
  function TokenEnd(buf: seq<char>, p: nat): (q: nat)
    requires p <= |buf|
    ensures p <= q <= |buf| && Delim(At(buf, q))
    decreases |buf| - p
  {
    if Delim(At(buf, p)) then p else TokenEnd(buf, p + 1)
  }

  /** A run of non-delimiters followed by a delimiter is exactly the token read. */
  lemma {:induction false} TokenEndAt(buf: seq<char>, p: nat, k: nat)
    requires p + k <= |buf| && Delim(At(buf, p + k))
    requires forall j :: p <= j < p + k ==> !Delim(buf[j])
    ensures TokenEnd(buf, p) == p + k
    decreases k
  {
    if k > 0 {
      TokenEndAt(buf, p + 1, k - 1);
    }
  }

  /** What the chain of strncmp tests makes of a token */
  datatype Token = VarToken | BinaryToken(oper: Oper) | UnaryToken(oper: Oper) | ConstToken

  function Classify(tok: string): (r: Token)
    ensures !r.ConstToken? ==> tok != []
    ensures r.BinaryToken? ==> Binary(r.oper)
    ensures r.UnaryToken? ==> Unary(r.oper)
  {
    // strncmp (tok, pre, strlen (pre)) == 0: character by character, the
    // token's terminating NUL failing any comparison past its end
    var c0, c1, c2 := At(tok, 0), At(tok, 1), At(tok, 2);
    if c0 == 'x' then VarToken
    else if c0 == '+' then BinaryToken(Plus)
    else if c0 == '-' then BinaryToken(Minus)
    else if c0 == '*' then BinaryToken(Mul)
    else if c0 == '/' then BinaryToken(Div)
    else if c0 == '^' then BinaryToken(Pow)
    else if c0 == 'l' && c1 == 'n' then UnaryToken(Ln)
    else if c0 == 'c' && c1 == 'o' && c2 == 's' then UnaryToken(Cos)
    else if c0 == 's' && c1 == 'i' && c2 == 'n' then UnaryToken(Sin)
    else ConstToken
  }

  /**
   * The trees the reader builds: the variable is always x, constants come
   * from tokens, neither has a right child, and ln, cos and sin have no left
   * child.
   */
  predicate Grammar(t: Tree) {
    match t
    case Nil => true
    case Node(k, l, r) =>
      Grammar(l) && Grammar(r) &&
      match k
      case Var(c) => c == 'x' && r.Nil?
      case Const(v) => v.Decimal? && r.Nil?
      case Op(o) => Binary(o) || (Unary(o) && l.Nil?)
      case KindErr => false
  }

  /**
   * What build_tree_from_array returns, with the cursor it leaves behind, or
   * Undefined once a token of SUB_EXPR_LEN characters or more has overflowed
   * sub_expr_buf
   */
  datatype Parsed = Parsed(tree: Tree, end: nat) | Undefined

  /** From p: blanks, then `(` opens a node; anything else is NULL with the blanks skipped. */
  function Parse(buf: seq<char>, p: nat): (r: Parsed)
    requires p <= |buf|
    ensures r.Parsed? ==> p <= r.end <= |buf|
    ensures r.Parsed? && r.tree.Node? ==> At(buf, SkipSpaces(buf, p)) == '('
    decreases |buf| - p, 2
  {
    var q := SkipSpaces(buf, p);
    if At(buf, q) != '(' then Parsed(Nil, q)
    else
      match Parse(buf, q + 1)
      case Undefined => Undefined
      case Parsed(left, m) => Operator(buf, left, m)
  }

  /** After the optional left subtree: blanks and the token, which must fit in sub_expr_buf */
  function Operator(buf: seq<char>, left: Tree, p: nat): (r: Parsed)
    requires p <= |buf|
    ensures r.Parsed? ==> p <= r.end <= |buf|
    ensures var s := SkipSpaces(buf, p); TokenEnd(buf, s) - s >= SubExprLen ==> r.Undefined?
    decreases |buf| - p, 1
  {
    var s := SkipSpaces(buf, p);
    var e := TokenEnd(buf, s);
    if e - s >= SubExprLen then Undefined else Apply(buf, left, buf[s..e], e)
  }

  /**
   * The token decides the node: x and constants keep the left subtree, the
   * operators read a right subtree, and ln, cos and sin drop the left one;
   * then the closing parenthesis.
   */
  function Apply(buf: seq<char>, left: Tree, tok: string, e: nat): (r: Parsed)
    requires |tok| <= e <= |buf|
    ensures r.Parsed? ==> e <= r.end <= |buf|
    decreases |buf| - e + |tok|, 0
  {
    match Classify(tok)
    case VarToken => Close(buf, Node(Var('x'), left, Nil), e)
    case ConstToken => Close(buf, Node(Const(Decimal(tok)), left, Nil), e)
    case BinaryToken(o) =>
      (match Parse(buf, e)
       case Undefined => Undefined
       case Parsed(right, c) => Close(buf, Node(Op(o), left, right), c))
    case UnaryToken(o) =>
      (match Parse(buf, e)
       case Undefined => Undefined
       case Parsed(right, c) => Close(buf, Node(Op(o), Nil, right), c))
  }

  /** Blanks, then `)` completes the node; anything else gives NULL. */
  function Close(buf: seq<char>, node: Tree, p: nat): (r: Parsed)
    requires p <= |buf|
    ensures r.Parsed? && p <= r.end <= |buf|
    ensures r.tree == node || r.tree.Nil?
  {
    var q := SkipSpaces(buf, p);
    if At(buf, q) == ')' then Parsed(node, q + 1) else Parsed(Nil, q)
  }

  /**
   * build_tree_from_array: reads one node at the cursor ptr, recursing for
   * the subtrees, and returns it with the advanced cursor, or NULL.
   */
  method BuildTree(buf: seq<char>, ptr: nat) returns (t: Tree, next: nat)
    requires ptr <= |buf| && Parse(buf, ptr).Parsed?
    ensures Parse(buf, ptr) == Parsed(t, next)
    decreases |buf| - ptr, 2
  {
    next := SkipWhitespace(buf, ptr);
    if At(buf, next) != '(' {
      return Nil, next;
    }
    var left;
    left, next := BuildTree(buf, next + 1);
    t, next := BuildOperator(buf, left, next);
  }

  /** The part of build_tree_from_array after the left subtree: the token */
  method BuildOperator(buf: seq<char>, left: Tree, ptr: nat) returns (t: Tree, next: nat)
    requires ptr <= |buf| && Operator(buf, left, ptr).Parsed?
    ensures Operator(buf, left, ptr) == Parsed(t, next)
    decreases |buf| - ptr, 1
  {
    next := SkipWhitespace(buf, ptr);
    var e := TokenEnd(buf, next);
    t, next := BuildNode(buf, left, buf[next..e], e);
  }

  /** The strncmp chain on the token, the right subtree and the closing parenthesis */
  method BuildNode(buf: seq<char>, left: Tree, tok: string, ptr: nat) returns (t: Tree, next: nat)
    requires |tok| <= ptr <= |buf| && Apply(buf, left, tok, ptr).Parsed?
    ensures Apply(buf, left, tok, ptr) == Parsed(t, next)
    decreases |buf| - ptr + |tok|, 0
  {
    next := ptr;
    var node;
    match Classify(tok) {
      case VarToken =>
        node := Node(Var('x'), left, Nil);
      case ConstToken =>
        node := Node(Const(Decimal(tok)), left, Nil);
      case BinaryToken(o) =>
        var right;
        right, next := BuildTree(buf, next);
        node := Node(Op(o), left, right);
      case UnaryToken(o) =>
        var right;
        right, next := BuildTree(buf, next);
        node := Node(Op(o), Nil, right);
    }
    t, next := CloseNode(buf, node, next);
  }

  /** The closing parenthesis: the node, or NULL with the cursor at what stands there instead */
  method CloseNode(buf: seq<char>, node: Tree, ptr: nat) returns (t: Tree, next: nat)
    requires ptr <= |buf|
    ensures Close(buf, node, ptr) == Parsed(t, next)
  {
    next := SkipWhitespace(buf, ptr);
    if At(buf, next) == ')' {
      return node, next + 1;
    }
    return Nil, next;
  }

  // ---------------------------------------------------------------------------
  // What the reader builds

  lemma {:induction false} ParseGrammar(buf: seq<char>, p: nat)
    requires p <= |buf|
    ensures Parse(buf, p).Parsed? ==> Grammar(Parse(buf, p).tree)
    decreases |buf| - p, 2
  {
    var q := SkipSpaces(buf, p);
    if At(buf, q) == '(' {
      var left := Parse(buf, q + 1);
      ParseGrammar(buf, q + 1);
      if left.Parsed? {
        OperatorGrammar(buf, left.tree, left.end);
      }
    }
  }

  lemma {:induction false} OperatorGrammar(buf: seq<char>, left: Tree, p: nat)
    requires p <= |buf| && Grammar(left)
    ensures Operator(buf, left, p).Parsed? ==> Grammar(Operator(buf, left, p).tree)
    decreases |buf| - p, 1
  {
    var s := SkipSpaces(buf, p);
    var e := TokenEnd(buf, s);
    ApplyGrammar(buf, left, buf[s..e], e);
  }

  lemma {:induction false} ApplyGrammar(buf: seq<char>, left: Tree, tok: string, e: nat)
    requires |tok| <= e <= |buf| && Grammar(left)
    ensures Apply(buf, left, tok, e).Parsed? ==> Grammar(Apply(buf, left, tok, e).tree)
    decreases |buf| - e + |tok|, 0
  {
    if Classify(tok).BinaryToken? || Classify(tok).UnaryToken? {
      ParseGrammar(buf, e);
    }
  }

  // ---------------------------------------------------------------------------
  // Reading back the fully parenthesised form

  function OperText(o: Oper): string {
    match o
    case Plus => "+"
    case Minus => "-"
    case Mul => "*"
    case Div => "/"
    case Pow => "^"
    case Ln => "ln"
    case Cos => "cos"
    case Sin => "sin"
    case OperErr => "?"
  }

  /** The token written for a node */
  function Text(k: Kind): string {
    match k
    case Var(c) => [c]
    case Const(v) => if v.Decimal? then v.token else "0"
    case Op(o) => OperText(o)
    case KindErr => "?"
  }

  /** `(`, the left subtree, then the rest of the node; NULL writes nothing */
  function Unparse(t: Tree): (s: string)
    decreases t, 1
  {
    match t
    case Nil => ""
    case Node(k, l, r) => "(" + Unparse(l) + Tail(Text(k), r)
  }

  /** The token, the right subtree and `)` */
  function Tail(tx: string, r: Tree): (s: string)
    decreases r, 2
  {
    tx + Unparse(r) + ")"
  }

  /**
   * A constant's token that reads back as itself: short enough for
   * sub_expr_buf, no parenthesis or NUL, no leading blank, and not taken for x
   * or an operator
   */
  predicate CleanToken(tok: string) {
    |tok| < SubExprLen && (forall j :: 0 <= j < |tok| ==> !Delim(tok[j])) && (tok == [] || !IsSpace(tok[0]))
      && Classify(tok).ConstToken?
  }

  /** The kinds of node the reader builds, constants with clean tokens */
  predicate PrintableKind(k: Kind) {
    match k
    case Var(c) => c == 'x'
    case Const(v) => v.Decimal? && CleanToken(v.token)
    case Op(o) => Binary(o) || Unary(o)
    case KindErr => false
  }

  /** The trees the reader builds whose constants carry clean tokens */
  predicate Printable(t: Tree) {
    match t
    case Nil => true
    case Node(k, l, r) =>
      PrintableKind(k) && Printable(l) && Printable(r) &&
      (!k.Op? ==> r.Nil?) && (k.Op? && Unary(k.oper) ==> l.Nil?)
  }

  lemma {:induction false} PrintableGrammar(t: Tree)
    requires Printable(t)
    ensures Grammar(t)
  {
    if t.Node? {
      PrintableGrammar(t.left);
      PrintableGrammar(t.right);
    }
  }

  /** The length of the written form */
  function Width(t: Tree): nat
    decreases t, 1
  {
    match t
    case Nil => 0
    case Node(k, l, r) => 1 + Width(l) + TailWidth(Text(k), r)
  }

  function TailWidth(tx: string, r: Tree): nat
    decreases r, 2
  {
    |tx| + Width(r) + 1
  }

  lemma {:induction false} UnparseWidth(t: Tree)
    ensures |Unparse(t)| == Width(t)
    decreases t, 1
  {
    if t.Node? {
      UnparseWidth(t.left);
      TailWidthIs(Text(t.kind), t.right);
    }
  }

  lemma {:induction false} TailWidthIs(tx: string, r: Tree)
    ensures |Tail(tx, r)| == TailWidth(tx, r)
    decreases r, 2
  {
    UnparseWidth(r);
  }

  /** The written form is empty exactly for NULL; a node's is bracketed. */
  lemma UnparseBrackets(t: Tree)
    ensures Unparse(t) == [] <==> t.Nil?
    ensures t.Node? ==> Unparse(t)[0] == '(' && Unparse(t)[|Unparse(t)| - 1] == ')'
  {
    if t.Node? {
      var ul, tl := Unparse(t.left), Tail(Text(t.kind), t.right);
      TailCloses(Text(t.kind), t.right);
      assert Unparse(t) == "(" + ul + tl;
    }
  }

  /** The part after the left subtree is longer than its token and ends with `)`. */
  lemma TailCloses(tx: string, r: Tree)
    ensures |Tail(tx, r)| > |tx| && Tail(tx, r)[|Tail(tx, r)| - 1] == ')'
  {
  }

  /** The written form of t lies in buf at p, piece by piece */
  predicate UnparsedAt(buf: seq<char>, p: nat, t: Tree)
    decreases t, 1
  {
    match t
    case Nil => true
    case Node(k, l, r) =>
      At(buf, p) == '(' && UnparsedAt(buf, p + 1, l) && TailAt(buf, p + 1 + Width(l), Text(k), r)
  }

  predicate TailAt(buf: seq<char>, m: nat, tx: string, r: Tree)
    decreases r, 2
  {
    var e := m + |tx|;
    IsAt(buf, m, tx) && UnparsedAt(buf, e, r) && At(buf, e + Width(r)) == ')'
  }

  lemma {:induction false} UnparseAt(t: Tree, buf: seq<char>, p: nat)
    requires IsAt(buf, p, Unparse(t))
    ensures UnparsedAt(buf, p, t)
    decreases t, 1
  {
    match t
    case Nil =>
    case Node(k, l, r) =>
      NodeParts(buf, p, t);
      UnparseAt(l, buf, p + 1);
      TailIsAt(Text(k), r, buf, p + 1 + Width(l));
  }

  /** The written form of a node at p: `(`, then the left subtree's, then the rest */
  lemma NodeParts(buf: seq<char>, p: nat, t: Tree)
    requires t.Node? && IsAt(buf, p, Unparse(t))
    ensures At(buf, p) == '(' && IsAt(buf, p + 1, Unparse(t.left))
    ensures IsAt(buf, p + 1 + Width(t.left), Tail(Text(t.kind), t.right))
  {
    var ul, tl := Unparse(t.left), Tail(Text(t.kind), t.right);
    assert Unparse(t) == "(" + ul + tl;
    UnparseWidth(t.left);
    ConcatParts(buf, p, ul, tl);
  }

  lemma ConcatParts(buf: seq<char>, p: nat, ul: string, tl: string)
    requires IsAt(buf, p, "(" + ul + tl)
    ensures At(buf, p) == '(' && IsAt(buf, p + 1, ul) && IsAt(buf, p + 1 + |ul|, tl)
  {
    IsAtSplit(buf, p, "(" + ul, tl);
    IsAtSplit(buf, p, "(", ul);
    IsAtChar(buf, p, "(", 0);
  }

  lemma {:induction false} TailIsAt(tx: string, r: Tree, buf: seq<char>, m: nat)
    requires IsAt(buf, m, Tail(tx, r))
    ensures TailAt(buf, m, tx, r)
    decreases r, 2
  {
    TailParts(buf, m, tx, Unparse(r));
    UnparseWidth(r);
    UnparseAt(r, buf, m + |tx|);
  }

  lemma TailParts(buf: seq<char>, m: nat, tx: string, ur: string)
    requires IsAt(buf, m, tx + ur + ")")
    ensures IsAt(buf, m, tx) && IsAt(buf, m + |tx|, ur) && At(buf, m + |tx| + |ur|) == ')'
  {
    IsAtSplit(buf, m, tx + ur, ")");
    IsAtSplit(buf, m, tx, ur);
    IsAtChar(buf, m + |tx| + |ur|, ")", 0);
  }

  /** The token of a printable kind holds no delimiter and starts with no blank; only a constant's may be empty. */
  lemma TextShape(k: Kind)
    requires PrintableKind(k)
    ensures forall j :: 0 <= j < |Text(k)| ==> !Delim(Text(k)[j])
    ensures Text(k) != [] ==> !IsSpace(Text(k)[0])
    ensures Text(k) == [] ==> k.Const?
    ensures |Text(k)| < SubExprLen
  {
  }

  /** The strncmp chain takes each operator's token for that operator. */
  lemma ClassifyOper(o: Oper)
    requires Binary(o) || Unary(o)
    ensures Binary(o) ==> Classify(OperText(o)) == BinaryToken(o)
    ensures Unary(o) ==> Classify(OperText(o)) == UnaryToken(o)
  {
  }

  /** The strncmp chain takes each printable kind's token for that kind. */
  lemma ClassifyText(k: Kind)
    requires PrintableKind(k)
    ensures k.Var? ==> Classify(Text(k)).VarToken?
    ensures k.Const? ==> Classify(Text(k)).ConstToken?
    ensures k.Op? && Binary(k.oper) ==> Classify(Text(k)) == BinaryToken(k.oper)
    ensures k.Op? && Unary(k.oper) ==> Classify(Text(k)) == UnaryToken(k.oper)
  {
    if k.Op? {
      ClassifyOper(k.oper);
    }
  }

  /** Neither a blank nor `(`: the reader returns NULL without moving. */
  lemma NilAt(buf: seq<char>, p: nat)
    requires p <= |buf| && At(buf, p) != '(' && !IsSpace(At(buf, p))
    ensures Parse(buf, p) == Parsed(Nil, p)
  {
  }

  lemma CloseAt(buf: seq<char>, node: Tree, c: nat)
    requires c <= |buf| && At(buf, c) == ')'
    ensures Close(buf, node, c) == Parsed(node, c + 1)
  {
  }

  /** A token written in full and ended by a delimiter is read back whole. */
  lemma TokenAt(buf: seq<char>, m: nat, tx: string)
    requires IsAt(buf, m, tx) && (forall j :: 0 <= j < |tx| ==> !Delim(tx[j]))
    requires tx != [] ==> !IsSpace(tx[0])
    requires m + |tx| <= |buf| && Delim(At(buf, m + |tx|))
    ensures SkipSpaces(buf, m) == m && TokenEnd(buf, m) == m + |tx| && buf[m..m + |tx|] == tx
  {
    IsAtSlice(buf, m, tx);
    if tx != [] {
      IsAtChar(buf, m, tx, 0);
    }
    forall j | m <= j < m + |tx|
      ensures !Delim(buf[j])
    {
      IsAtChar(buf, m, tx, j - m);
    }
    TokenEndAt(buf, m, |tx|);
  }

  /** What follows a left subtree is neither a blank nor `(`. */
  lemma TailStart(buf: seq<char>, m: nat, tx: string, r: Tree)
    requires TailAt(buf, m, tx, r)
    requires tx != [] ==> !IsSpace(tx[0]) && !Delim(tx[0])
    requires tx == [] ==> r.Nil?
    ensures At(buf, m) != '(' && !IsSpace(At(buf, m))
  {
    if tx != [] {
      IsAtChar(buf, m, tx, 0);
    }
  }

  /** The written form of a printable node reads back as that node, and the cursor lands just after it. */
  lemma {:induction false} ParseUnparsed(t: Tree, buf: seq<char>, p: nat)
    requires p <= |buf| && Printable(t) && t.Node? && UnparsedAt(buf, p, t)
    ensures Parse(buf, p) == Parsed(t, p + Width(t))
    decreases t, 1
  {
    var k, l, r := t.kind, t.left, t.right;
    var m := p + 1 + Width(l);
    assert At(buf, p) == '(' && TailAt(buf, m, Text(k), r);
    assert p + Width(t) == m + TailWidth(Text(k), r);
    LeftReads(t, buf, p);
    OperatorTail(buf, l, m, k, r);
    ParseOpens(buf, p, l, m);
  }

  /** After `(`, the left subtree is read back, or NULL where there is none. */
  lemma {:induction false} LeftReads(t: Tree, buf: seq<char>, p: nat)
    requires p <= |buf| && Printable(t) && t.Node? && UnparsedAt(buf, p, t)
    ensures p + 1 + Width(t.left) <= |buf| && Parse(buf, p + 1) == Parsed(t.left, p + 1 + Width(t.left))
    decreases t, 0
  {
    var k, l, r := t.kind, t.left, t.right;
    assert At(buf, p) == '(' && UnparsedAt(buf, p + 1, l) && TailAt(buf, p + 1 + Width(l), Text(k), r);
    TextShape(k);
    if l.Node? {
      ParseUnparsed(l, buf, p + 1);
    } else {
      TailStart(buf, p + 1, Text(k), r);
      NilAt(buf, p + 1);
    }
  }

  /** At `(` the reader reads the left subtree after it and goes on from where that ends. */
  lemma ParseOpens(buf: seq<char>, p: nat, l: Tree, m: nat)
    requires p < |buf| && At(buf, p) == '('
    requires Parse(buf, p + 1) == Parsed(l, m) && m <= |buf|
    ensures Parse(buf, p) == Operator(buf, l, m)
  {
    assert SkipSpaces(buf, p) == p;
  }

  /** The token, the right subtree and `)` of a printable node complete it. */
  lemma {:induction false} OperatorTail(buf: seq<char>, l: Tree, m: nat, k: Kind, r: Tree)
    requires m <= |buf| && PrintableKind(k) && Printable(r) && TailAt(buf, m, Text(k), r)
    requires (!k.Op? ==> r.Nil?) && (k.Op? && Unary(k.oper) ==> l.Nil?)
    ensures Operator(buf, l, m) == Parsed(Node(k, l, r), m + TailWidth(Text(k), r))
    decreases r, 5
  {
    var tx := Text(k);
    var e := m + |tx|;
    TokenRead(buf, m, k, r);
    ApplyTail(buf, l, k, r, e);
    OperatorAt(buf, l, m, e);
    SameToken(buf, l, buf[m..e], tx, e);
  }

  /** The token of a written node is read whole, and it fits sub_expr_buf. */
  lemma TokenRead(buf: seq<char>, m: nat, k: Kind, r: Tree)
    requires m <= |buf| && PrintableKind(k) && TailAt(buf, m, Text(k), r)
    ensures m + |Text(k)| <= |buf| && |Text(k)| < SubExprLen
    ensures SkipSpaces(buf, m) == m && TokenEnd(buf, m) == m + |Text(k)| && buf[m..m + |Text(k)|] == Text(k)
  {
    var tx := Text(k);
    var e := m + |tx|;
    assert IsAt(buf, m, tx) && UnparsedAt(buf, e, r) && At(buf, e + Width(r)) == ')';
    IsAtSlice(buf, m, tx);
    TokenEndsAt(buf, e, r);
    TextShape(k);
    TokenAt(buf, m, tx);
  }

  /** After the token comes the right subtree's `(` or, without one, the closing `)`. */
  lemma TokenEndsAt(buf: seq<char>, e: nat, r: Tree)
    requires UnparsedAt(buf, e, r) && At(buf, e + Width(r)) == ')'
    ensures Delim(At(buf, e))
  {
    if r.Nil? {
      assert e + Width(r) == e;
    }
  }

  /** A token read whole and shorter than sub_expr_buf is handed on to decide the node. */
  lemma OperatorAt(buf: seq<char>, l: Tree, m: nat, e: nat)
    requires m <= e <= |buf| && SkipSpaces(buf, m) == m && TokenEnd(buf, m) == e && e - m < SubExprLen
    ensures Operator(buf, l, m) == Apply(buf, l, buf[m..e], e)
  {
  }

  lemma SameToken(buf: seq<char>, l: Tree, a: string, b: string, e: nat)
    requires a == b && |a| <= e <= |buf|
    ensures Apply(buf, l, a, e) == Apply(buf, l, b, e)
  {
  }

  lemma {:induction false} ApplyTail(buf: seq<char>, l: Tree, k: Kind, r: Tree, e: nat)
    requires |Text(k)| <= e <= |buf| && PrintableKind(k) && Printable(r)
    requires UnparsedAt(buf, e, r) && At(buf, e + Width(r)) == ')'
    requires (!k.Op? ==> r.Nil?) && (k.Op? && Unary(k.oper) ==> l.Nil?)
    ensures Apply(buf, l, Text(k), e) == Parsed(Node(k, l, r), e + Width(r) + 1)
    decreases r, 4
  {
    if k.Op? {
      ClassifyText(k);
      ApplyTailOp(buf, l, Text(k), k.oper, r, e);
    } else {
      ClassifyText(k);
      ApplyClosed(buf, l, Text(k), e, Node(k, l, r));
    }
  }

  /** An operator token followed by the written form of its right operand and `)` */
  lemma {:induction false} ApplyTailOp(buf: seq<char>, l: Tree, tok: string, o: Oper, r: Tree, e: nat)
    requires |tok| <= e <= |buf| && Printable(r)
    requires UnparsedAt(buf, e, r) && At(buf, e + Width(r)) == ')'
    requires Classify(tok) == BinaryToken(o) || (Classify(tok) == UnaryToken(o) && l.Nil?)
    ensures Apply(buf, l, tok, e) == Parsed(Node(Op(o), l, r), e + Width(r) + 1)
    decreases r, 3
  {
    var c := e + Width(r);
    assert At(buf, c) == ')';
    RightReads(r, buf, e);
    ApplyOperator(buf, l, tok, e, o, r, c);
  }

  /** After an operator token, the right operand is read back, or NULL where there is none. */
  lemma {:induction false} RightReads(r: Tree, buf: seq<char>, e: nat)
    requires e <= |buf| && Printable(r) && UnparsedAt(buf, e, r) && At(buf, e + Width(r)) == ')'
    ensures e + Width(r) <= |buf| && Parse(buf, e) == Parsed(r, e + Width(r))
    decreases r, 2
  {
    if r.Node? {
      ParseUnparsed(r, buf, e);
    } else {
      assert Width(r) == 0;
      NilAt(buf, e);
    }
  }

  /** x and constant tokens take no right subtree: the node closes at once. */
  lemma ApplyClosed(buf: seq<char>, l: Tree, tok: string, e: nat, node: Tree)
    requires |tok| <= e <= |buf| && At(buf, e) == ')'
    requires Classify(tok).VarToken? ==> node == Node(Var('x'), l, Nil)
    requires Classify(tok).ConstToken? ==> node == Node(Const(Decimal(tok)), l, Nil)
    requires Classify(tok).VarToken? || Classify(tok).ConstToken?
    ensures Apply(buf, l, tok, e) == Parsed(node, e + 1)
  {
  }

  /** An operator token reads its right operand, then the node closes. */
  lemma ApplyOperator(buf: seq<char>, l: Tree, tok: string, e: nat, o: Oper, right: Tree, c: nat)
    requires |tok| <= e <= |buf| && Parse(buf, e) == Parsed(right, c)
    requires c <= |buf| && At(buf, c) == ')'
    requires Classify(tok) == BinaryToken(o) || Classify(tok) == UnaryToken(o)
    ensures Classify(tok).BinaryToken? ==> Apply(buf, l, tok, e) == Parsed(Node(Op(o), l, right), c + 1)
    ensures Classify(tok).UnaryToken? ==> Apply(buf, l, tok, e) == Parsed(Node(Op(o), Nil, right), c + 1)
  {
  }

  /** A leaf whose token fills sub_expr_buf or more overflows it: the read is undefined. */
  lemma LongTokenOverflows(tok: string)
    requires |tok| >= SubExprLen && !IsSpace(tok[0])
    requires forall j :: 0 <= j < |tok| ==> !Delim(tok[j])
    ensures Parse("(" + tok + ")", 0) == Undefined
  {
    var buf := "(" + tok + ")";
    assert SkipSpaces(buf, 0) == 0 && SkipSpaces(buf, 1) == 1;
    assert Parse(buf, 1) == Parsed(Nil, 1);
    TokenEndAt(buf, 1, |tok|);
  }

  /** Reading the written form of a printable tree gives the tree back, whatever follows it. */
  lemma ParseUnparse(t: Tree, rest: string)
    requires Printable(t) && t.Node?
    ensures Parse(Unparse(t) + rest, 0) == Parsed(t, |Unparse(t)|)
  {
    var buf := Unparse(t) + rest;
    IsAtStart(Unparse(t), rest);
    UnparseAt(t, buf, 0);
    ParseUnparsed(t, buf, 0);
    UnparseWidth(t);
  }
}
