/**
 * The guessing game of Akinator/akinator.cpp. The knowledge base is a full
 * binary tree: every inner node holds a feature ("barks"), its left child is
 * the subtree of objects that have it and its right child those that do not;
 * every leaf names an object. The base is saved and loaded in a brace format,
 * `{ name }` for a leaf and `{ feature T T }` for an inner node.
 *
 * Nodes are modelled as a value tree; an inner node is a node with both
 * children, a leaf one with neither (the only shapes the parser and
 * add_new_entry produce). Lines typed by the player are an input sequence.
 */
module Akinator {
  import opened Common

  datatype Tree = Leaf(name: string) | Question(feature: string, yes: Tree, no: Tree)

  /** The base the game starts with */
  const BaseRoot: Tree := Leaf("Nobody")

  /** The names of the objects at the leaves */
  function Leaves(t: Tree): set<string> {
    match t
    case Leaf(n) => {n}
    case Question(_, y, n) => Leaves(y) + Leaves(n)
  }

  /** The line the i-th fgets leaves in the zeroed buffer: empty once the input is exhausted */
  function Line(input: seq<string>, i: nat): string {
    if i < |input| then input[i] else ""
  }

  // ---------------------------------------------------------------------------
  // scanf_mode and ask_is_right

  datatype Mode = ModeError | ModeLoad | ModePlay | ModeDesc | ModeDiff | ModeSave | ModeDraw | ModeExit

  /** scanf_mode: the game mode a command line names */
  function ScanfMode(line: string): (m: Mode)
    ensures m == ModeLoad <==> line == "l" || line == "load"
    ensures m == ModePlay <==> line == "p" || line == "play"
    ensures m == ModeDesc <==> line == "desc"
    ensures m == ModeDiff <==> line == "diff"
    ensures m == ModeDraw <==> line == "draw"
    ensures m == ModeSave <==> line == "s" || line == "save"
    ensures m == ModeExit <==> line == "q" || line == "exit"
    ensures m == ModeError <==> line !in ["l", "load", "p", "play", "desc", "diff", "draw", "s", "save", "q", "exit"]
  {
    if line == "l" || line == "load" then ModeLoad
    else if line == "p" || line == "play" then ModePlay
    else if line == "desc" then ModeDesc
    else if line == "diff" then ModeDiff
    else if line == "draw" then ModeDraw
    else if line == "s" || line == "save" then ModeSave
    else if line == "q" || line == "exit" then ModeExit
    else ModeError
  }

  datatype Answer = AnsYes | AnsNo | AnsError

  /** One typed answer */
  function Reply(line: string): (a: Answer)
    ensures a == AnsYes <==> line == "y" || line == "yes"
    ensures a == AnsNo <==> line == "n" || line == "no"
  {
    if line == "y" || line == "yes" then AnsYes
    else if line == "n" || line == "no" then AnsNo
    else AnsError
  }

  /**
   * ask_is_right, reading from line i: a second line is read only when the
   * first is not an answer. Returns the answer and the next unread line.
   */
  function AskIsRight(input: seq<string>, i: nat): (r: (Answer, nat))
    ensures r.1 == i + 1 <==> Reply(Line(input, i)) != AnsError
    ensures r.1 == i + 1 ==> r.0 == Reply(Line(input, i))
    ensures r.1 == i + 2 && r.1 != i + 1 ==> r.0 == Reply(Line(input, i + 1))
    ensures r.1 == i + 1 || r.1 == i + 2
  {
    var first := Reply(Line(input, i));
    if first != AnsError then (first, i + 1) else (Reply(Line(input, i + 1)), i + 2)
  }

  // ---------------------------------------------------------------------------
  // dump_tree_to_file

  /** What dump_tree_to_file writes: braced, with the node's text after the opening brace */
  function Dump(t: Tree): (s: string)
  {
    match t
    case Leaf(n) => "{ " + n + " " + "}"
    case Question(f, y, n) => "{ " + f + " " + Dump(y) + Dump(n) + "}"
  }

  /** A dump starts with `{ ` and ends with `}`. */
  lemma DumpBraces(t: Tree)
    ensures |Dump(t)| >= 4 && Dump(t)[0] == '{' && Dump(t)[1] == ' ' && Dump(t)[|Dump(t)| - 1] == '}'
  {
  }

  // ---------------------------------------------------------------------------
  // build_tree_from_array

  /** CMD_BUF_LEN: the size of cmd_buf, which %[^}{] fills with the run and its NUL; a char stands for a byte */
  const CmdBufLen: nat := 100

  /** Where %[^}{] stops: a brace or the terminating NUL */
  predicate Stop(c: char) {
    c == '{' || c == '}' || c == '\0'
  }

  /** The end of what %[^}{] reads from p */
  function RunEnd(buf: seq<char>, p: nat): (q: nat)
    requires p <= |buf|
    ensures p <= q <= |buf| && Stop(At(buf, q))
    decreases |buf| - p
  {
    if Stop(At(buf, p)) then p else RunEnd(buf, p + 1)
  }

  /** The run read holds no brace and no NUL. */
  lemma {:induction false} RunClear(buf: seq<char>, p: nat, k: nat)
    requires p <= |buf| && p <= k < RunEnd(buf, p)
    ensures !Stop(buf[k])
    decreases |buf| - p
  {
    if k > p {
      RunClear(buf, p + 1, k);
    }
  }

  /** s without its trailing isspace characters */
  function TrimEnd(s: string): (r: string)
    ensures |r| <= |s| && r == s[..|r|]
    ensures r == [] || !IsSpace(r[|r| - 1])
    ensures forall k :: |r| <= k < |s| ==> IsSpace(s[k])
    ensures s != [] && !IsSpace(s[0]) ==> r != []
  {
    if s != [] && IsSpace(s[|s| - 1]) then TrimEnd(s[..|s| - 1]) else s
  }

  /**
   * The outcome of build_tree_from_array from cursor p: the tree and the
   * cursor after it, NULL, or Undefined where the code reads cmd_buf[len - 1]
   * with len == 0 (a `{` followed, after blanks, by a brace or the end) or
   * where a run of CMD_BUF_LEN characters or more overflows cmd_buf.
   */
  datatype Built = Node(tree: Tree, end: nat) | Null | Undefined

  function Parse(buf: seq<char>, p: nat): (r: Built)
    requires p <= |buf|
    ensures r.Node? ==> p < r.end <= |buf|
    decreases |buf| - p, 3
  {
    var q := SkipSpaces(buf, p);
    if At(buf, q) != '{' then Null else Body(buf, q + 1)
  }

  /** After the opening brace: blanks, then the name up to the next brace, which must fit in cmd_buf */
  function Body(buf: seq<char>, p: nat): (r: Built)
    requires p <= |buf|
    ensures r.Node? ==> p <= r.end <= |buf|
    ensures var s := SkipSpaces(buf, p); RunEnd(buf, s) == s || RunEnd(buf, s) - s >= CmdBufLen ==> r.Undefined?
    decreases |buf| - p, 2
  {
    var s := SkipSpaces(buf, p);
    var e := RunEnd(buf, s);
    if e == s || e - s >= CmdBufLen then Undefined else Rest(buf, TrimEnd(buf[s..e]), e)
  }

  /** After the name: a closing brace, or the two subtrees */
  function Rest(buf: seq<char>, name: string, e: nat): (r: Built)
    requires 0 < e <= |buf|
    ensures r.Node? ==> e < r.end <= |buf|
    decreases |buf| - e + 1, 1
  {
    if At(buf, e) == '}' then Node(Leaf(name), e + 1) else Children(buf, name, e, Parse(buf, e))
  }

  /** After the left subtree: the right subtree */
  function Children(buf: seq<char>, name: string, e: nat, left: Built): (r: Built)
    requires e <= |buf| && (left.Node? ==> e < left.end <= |buf|)
    ensures r.Node? ==> e < r.end <= |buf|
    decreases |buf| - e, 0
  {
    if !left.Node? then left else Close(buf, name, left.tree, Parse(buf, left.end))
  }

  /** After the right subtree: the closing brace */
  function Close(buf: seq<char>, name: string, yes: Tree, right: Built): (r: Built)
    requires right.Node? ==> right.end <= |buf|
    ensures r.Node? ==> right.Node? && r.end == right.end + 1 <= |buf|
  {
    if !right.Node? then right
    else if At(buf, right.end) == '}' then Node(Question(name, yes, right.tree), right.end + 1)
    else Null
  }

  /** The loop that strips trailing blanks off the name read */
  method TrimName(run: string) returns (name: string)
    ensures name == TrimEnd(run)
  {
    var len := |run|;
    while len > 0 && IsSpace(run[len - 1])
      invariant 0 <= len <= |run| && TrimEnd(run) == TrimEnd(run[..len])
    {
      assert run[..len - 1] == run[..len][..len - 1];
      len := len - 1;
    }
    name := run[..len];
  }

  /**
   * build_tree_from_array: reads one tree at the shared cursor ptr and
   * returns it with the advanced cursor, or NULL.
   */
  method BuildTree(buf: seq<char>, ptr: nat) returns (t: Option<Tree>, next: nat)
    requires ptr <= |buf| && !Parse(buf, ptr).Undefined?
    ensures t.Some? <==> Parse(buf, ptr).Node?
    ensures t.Some? ==> t.value == Parse(buf, ptr).tree && next == Parse(buf, ptr).end
    decreases |buf| - ptr
  {
    next := SkipWhitespace(buf, ptr);
    if At(buf, next) != '{' {
      return None, next;
    }
    ghost var body := next + 1;
    next := SkipWhitespace(buf, next + 1);
    var e := RunEnd(buf, next);
    var name := TrimName(buf[next..e]);
    assert Parse(buf, ptr) == Body(buf, body) == Rest(buf, name, e);
    next := e;
    if At(buf, next) == '}' {
      return Some(Leaf(name)), next + 1;
    }
    assert Parse(buf, ptr) == Children(buf, name, e, Parse(buf, e));
    var yes, no;
    yes, next := BuildTree(buf, next);
    if yes == None {
      return None, next;
    }
    assert Parse(buf, ptr) == Close(buf, name, yes.value, Parse(buf, next));
    no, next := BuildTree(buf, next);
    if no == None {
      return None, next;
    }
    if At(buf, next) == '}' {
      return Some(Question(name, yes.value, no.value)), next + 1;
    }
    return None, next;
  }

  // ---------------------------------------------------------------------------
  // The save / load round trip

  /** A name as the parser leaves it: non-empty, no brace or NUL, no blank at either end */
  predicate PlainName(s: string) {
    s != [] && !IsSpace(s[0]) && !IsSpace(s[|s| - 1]) && forall k :: 0 <= k < |s| ==> !Stop(s[k])
  }

  /**
   * A name the brace format carries unchanged: plain, and short enough that
   * the run `name ` the dump writes, with its NUL, fits in cmd_buf
   */
  predicate CleanName(s: string) {
    PlainName(s) && |s| + 1 < CmdBufLen
  }

  predicate Clean(t: Tree) {
    match t
    case Leaf(n) => CleanName(n)
    case Question(f, y, n) => CleanName(f) && Clean(y) && Clean(n)
  }

  /** The trees the parser builds: plain names of fewer than CMD_BUF_LEN characters */
  predicate Readable(t: Tree) {
    match t
    case Leaf(n) => PlainName(n) && |n| < CmdBufLen
    case Question(f, y, n) => PlainName(f) && |f| < CmdBufLen && Readable(y) && Readable(n)
  }

  /** The run %[^}{] reads is exactly k characters long. */
  lemma {:induction false} RunEndAt(buf: seq<char>, p: nat, k: nat)
    requires p + k <= |buf| && Stop(At(buf, p + k))
    requires forall j :: p <= j < p + k ==> !Stop(buf[j])
    ensures RunEnd(buf, p) == p + k
    decreases k
  {
    if k > 0 {
      RunEndAt(buf, p + 1, k - 1);
    }
  }

  /** `{ name ` followed by a brace: the parser reads the name back and stops at that brace. */
  lemma ReadHeader(buf: seq<char>, p: nat, name: string)
    requires PlainName(name) && IsAt(buf, p, "{ " + name + " ")
    requires p + |name| + 3 < |buf| && (buf[p + |name| + 3] == '{' || buf[p + |name| + 3] == '}')
    ensures SkipSpaces(buf, p) == p && At(buf, p) == '{'
    ensures SkipSpaces(buf, p + 1) == p + 2
    ensures RunEnd(buf, p + 2) == p + |name| + 3
    ensures TrimEnd(buf[p + 2..p + |name| + 3]) == name
  {
    var e := p + |name| + 3;
    var h := "{ " + name + " ";
    IsAtChar(buf, p, h, 0);
    IsAtChar(buf, p, h, 1);
    IsAtChar(buf, p, h, 2);
    forall j | p + 2 <= j < e
      ensures !Stop(buf[j]) && buf[j] == h[j - p]
    {
      IsAtChar(buf, p, h, j - p);
      if j < e - 1 {
        assert h[j - p] == name[j - p - 2];
      }
    }
    RunEndAt(buf, p + 2, |name| + 1);
    assert buf[p + 2..e] == name + [' '];
    assert (name + [' '])[..|name|] == name;
  }

  /** An opening brace and a name that fits in cmd_buf: the parser goes on after the name. */
  lemma ParseOpens(buf: seq<char>, p: nat, name: string, e: nat)
    requires p + 2 < e <= |buf| && SkipSpaces(buf, p) == p && At(buf, p) == '{' && e - (p + 2) < CmdBufLen
    requires SkipSpaces(buf, p + 1) == p + 2 && RunEnd(buf, p + 2) == e && TrimEnd(buf[p + 2..e]) == name
    ensures Parse(buf, p) == Rest(buf, name, e)
  {
    assert Parse(buf, p) == Body(buf, p + 1);
  }

  /** Where a leaf's dump occurs, the parser reads that leaf. */
  lemma ParseLeafAt(buf: seq<char>, p: nat, n: string)
    requires CleanName(n) && IsAt(buf, p, "{ " + n + " " + "}")
    ensures Parse(buf, p) == Node(Leaf(n), p + |n| + 4)
  {
    IsAtSplit(buf, p, "{ " + n + " ", "}");
    IsAtChar(buf, p + |n| + 3, "}", 0);
    ReadHeader(buf, p, n);
    ParseOpens(buf, p, n, p + |n| + 3);
  }

  /** `{ f `, two subtrees the parser reads, then `}`: the parser reads the inner node. */
  lemma ParseQuestionAt(buf: seq<char>, p: nat, f: string, y: Tree, n: Tree, m: nat, m': nat)
    requires CleanName(f) && IsAt(buf, p, "{ " + f + " ")
    requires p + |f| + 3 < |buf| && buf[p + |f| + 3] == '{'
    requires Parse(buf, p + |f| + 3).Node? && Parse(buf, p + |f| + 3).tree == y && Parse(buf, p + |f| + 3).end == m
    requires Parse(buf, m).Node? && Parse(buf, m).tree == n && Parse(buf, m).end == m'
    requires m' < |buf| && buf[m'] == '}'
    ensures Parse(buf, p) == Node(Question(f, y, n), m' + 1)
  {
    ParseQuestionOpens(buf, p, f);
    assert Parse(buf, p + |f| + 3) == Node(y, m);
  }

  /** The pieces of an inner node's dump and where they lie */
  lemma DumpParts(buf: seq<char>, p: nat, f: string, y: Tree, n: Tree)
    requires IsAt(buf, p, Dump(Question(f, y, n)))
    ensures IsAt(buf, p, "{ " + f + " ")
    ensures p + |f| + 3 < |buf| && buf[p + |f| + 3] == '{'
    ensures IsAt(buf, p + |f| + 3, Dump(y))
    ensures IsAt(buf, p + |f| + 3 + |Dump(y)|, Dump(n))
    ensures p + |f| + 3 + |Dump(y)| + |Dump(n)| < |buf| && buf[p + |f| + 3 + |Dump(y)| + |Dump(n)|] == '}'
    ensures |Dump(Question(f, y, n))| == |f| + 4 + |Dump(y)| + |Dump(n)|
  {
    var h, dy, dn := "{ " + f + " ", Dump(y), Dump(n);
    var e := p + |h|;
    IsAtSplit(buf, p, h + dy + dn, "}");
    IsAtSplit(buf, p, h + dy, dn);
    IsAtSplit(buf, p, h, dy);
    IsAtChar(buf, e, dy, 0);
    IsAtChar(buf, e + |dy| + |dn|, "}", 0);
  }

  /** The length of the dump of t */
  function Width(t: Tree): nat {
    match t
    case Leaf(n) => |n| + 4
    case Question(f, y, n) => |f| + 4 + Width(y) + Width(n)
  }

  lemma {:induction false} DumpWidth(t: Tree)
    ensures |Dump(t)| == Width(t)
  {
    match t
    case Leaf(n) =>
    case Question(f, y, n) =>
      DumpWidth(y);
      DumpWidth(n);
  }

  /** The dump of t lies in buf at p, piece by piece */
  predicate DumpedAt(buf: seq<char>, p: nat, t: Tree)
    decreases t
  {
    match t
    case Leaf(n) => IsAt(buf, p, "{ " + n + " " + "}")
    case Question(f, y, n) =>
      var e := p + |f| + 3;
      IsAt(buf, p, "{ " + f + " ") && e < |buf| && buf[e] == '{' &&
      DumpedAt(buf, e, y) && DumpedAt(buf, e + Width(y), n) &&
      e + Width(y) + Width(n) < |buf| && buf[e + Width(y) + Width(n)] == '}'
  }

  lemma {:induction false} DumpIsAt(t: Tree, buf: seq<char>, p: nat)
    requires IsAt(buf, p, Dump(t))
    ensures DumpedAt(buf, p, t)
    decreases t
  {
    match t
    case Leaf(n) =>
    case Question(f, y, n) =>
      DumpParts(buf, p, f, y, n);
      DumpWidth(y);
      DumpWidth(n);
      DumpIsAt(y, buf, p + |f| + 3);
      DumpIsAt(n, buf, p + |f| + 3 + Width(y));
  }

  lemma {:induction false} ParseDumped(t: Tree, buf: seq<char>, p: nat)
    requires Clean(t) && DumpedAt(buf, p, t)
    ensures Parse(buf, p).Node? && Parse(buf, p).tree == t && Parse(buf, p).end == p + Width(t)
    decreases t
  {
    match t
    case Leaf(n) =>
      ParseLeafAt(buf, p, n);
    case Question(f, y, n) =>
      var e := p + |f| + 3;
      var m, m' := e + Width(y), e + Width(y) + Width(n);
      assert IsAt(buf, p, "{ " + f + " ") && e < |buf| && buf[e] == '{';
      assert DumpedAt(buf, e, y) && DumpedAt(buf, m, n) && m' < |buf| && buf[m'] == '}';
      ParseDumped(y, buf, e);
      ParseDumped(n, buf, m);
      ParseQuestionAt(buf, p, f, y, n, m, m');
  }

  /** Parsing what dump_tree_to_file wrote gives back the tree, and the cursor lands just after it. */
  lemma ParseDump(t: Tree, buf: seq<char>, p: nat)
    requires Clean(t) && IsAt(buf, p, Dump(t))
    ensures Parse(buf, p) == Node(t, p + |Dump(t)|)
  {
    DumpIsAt(t, buf, p);
    ParseDumped(t, buf, p);
    DumpWidth(t);
  }

  /** The whole saved file loads back as the saved tree. */
  lemma LoadSaved(t: Tree)
    requires Clean(t)
    ensures Parse(Dump(t), 0) == Node(t, |Dump(t)|)
  {
    IsAtWhole(Dump(t));
    ParseDump(t, Dump(t), 0);
  }

  /** The name the parser reads after an opening brace is trimmed, non-empty and brace-free. */
  lemma ReadClean(buf: seq<char>, s: nat)
    requires s <= |buf| && !IsSpace(At(buf, s)) && RunEnd(buf, s) != s
    ensures PlainName(TrimEnd(buf[s..RunEnd(buf, s)]))
  {
    var run := buf[s..RunEnd(buf, s)];
    var name := TrimEnd(run);
    assert run[0] == buf[s];
    assert name[0] == run[0];
    forall k | 0 <= k < |name|
      ensures !Stop(name[k])
    {
      assert name[k] == run[k] == buf[s + k];
      RunClear(buf, s, s + k);
    }
  }

  /** Every tree the parser builds has trimmed, non-empty, brace-free names shorter than cmd_buf. */
  lemma {:induction false} ParsedClean(buf: seq<char>, p: nat)
    requires p <= |buf|
    ensures Parse(buf, p).Node? ==> Readable(Parse(buf, p).tree)
    decreases |buf| - p
  {
    var q := SkipSpaces(buf, p);
    if At(buf, q) == '{' {
      var s := SkipSpaces(buf, q + 1);
      var e := RunEnd(buf, s);
      if e != s && e - s < CmdBufLen {
        var name := TrimEnd(buf[s..e]);
        ReadClean(buf, s);
        assert Parse(buf, p) == Rest(buf, name, e);
        if At(buf, e) != '}' {
          var left := Parse(buf, e);
          ParsedClean(buf, e);
          if left.Node? {
            assert Parse(buf, p) == Close(buf, name, left.tree, Parse(buf, left.end));
            ParsedClean(buf, left.end);
          }
        }
      }
    }
  }

  /**
   * Where a readable tree has a name of 99 characters or more, the run
   * `name ` its dump holds overflows cmd_buf: reading the dump is undefined.
   */
  lemma {:induction false} ParseDumpedLong(t: Tree, buf: seq<char>, p: nat)
    requires Readable(t) && !Clean(t) && DumpedAt(buf, p, t)
    ensures Parse(buf, p).Undefined?
    decreases t, 2
  {
    match t
    case Leaf(n) =>
      IsAtSplit(buf, p, "{ " + n + " ", "}");
      IsAtChar(buf, p + |n| + 3, "}", 0);
      LongHeader(buf, p, n);
    case Question(f, y, n) =>
      if !CleanName(f) {
        LongHeader(buf, p, f);
      } else {
        LongSubtree(t, buf, p);
      }
  }

  /** An inner node with a clean feature: the overflow happens in a subtree. */
  lemma {:induction false} LongSubtree(t: Tree, buf: seq<char>, p: nat)
    requires t.Question? && CleanName(t.feature) && Readable(t) && !Clean(t) && DumpedAt(buf, p, t)
    ensures Parse(buf, p).Undefined?
    decreases t, 1
  {
    var f, y, n := t.feature, t.yes, t.no;
    var e := p + |f| + 3;
    ParseQuestionOpens(buf, p, f);
    SubtreeFails(t, y, n, buf, e);
    ChildrenFail(buf, f, e);
  }

  /** Of two readable subtrees written one after the other, one not clean: one of the reads is undefined. */
  lemma {:induction false} SubtreeFails(t: Tree, y: Tree, n: Tree, buf: seq<char>, e: nat)
    requires t.Question? && y == t.yes && n == t.no
    requires Readable(y) && Readable(n) && !(Clean(y) && Clean(n))
    requires DumpedAt(buf, e, y) && DumpedAt(buf, e + Width(y), n)
    ensures e <= |buf|
    ensures Parse(buf, e).Undefined? || (Parse(buf, e).Node? && Parse(buf, Parse(buf, e).end).Undefined?)
    decreases t, 0
  {
    if Clean(y) {
      ParseDumped(y, buf, e);
      ParseDumpedLong(n, buf, e + Width(y));
    } else {
      ParseDumpedLong(y, buf, e);
    }
  }

  /** An undefined read of either subtree makes the node's read undefined. */
  lemma ChildrenFail(buf: seq<char>, f: string, e: nat)
    requires e <= |buf|
    requires Parse(buf, e).Undefined? || (Parse(buf, e).Node? && Parse(buf, Parse(buf, e).end).Undefined?)
    ensures Children(buf, f, e, Parse(buf, e)).Undefined?
  {
  }

  /** `{ f ` before an opening brace: the parser goes on with the two subtrees. */
  lemma ParseQuestionOpens(buf: seq<char>, p: nat, f: string)
    requires CleanName(f) && IsAt(buf, p, "{ " + f + " ")
    requires p + |f| + 3 < |buf| && buf[p + |f| + 3] == '{'
    ensures Parse(buf, p) == Children(buf, f, p + |f| + 3, Parse(buf, p + |f| + 3))
  {
    var e := p + |f| + 3;
    ReadHeader(buf, p, f);
    ParseOpens(buf, p, f, e);
  }

  /** `{ name ` before a brace, with a name of 99 characters or more: the run overflows cmd_buf. */
  lemma LongHeader(buf: seq<char>, p: nat, name: string)
    requires PlainName(name) && |name| + 1 >= CmdBufLen && IsAt(buf, p, "{ " + name + " ")
    requires p + |name| + 3 < |buf| && (buf[p + |name| + 3] == '{' || buf[p + |name| + 3] == '}')
    ensures Parse(buf, p).Undefined?
  {
    ReadHeader(buf, p, name);
    assert Parse(buf, p) == Body(buf, p + 1);
  }

  /**
   * Saving a loaded tree and loading the file again gives the same tree when
   * every name is at most 98 characters long; a name of 99 characters, which
   * the parser accepts, makes the reload overflow cmd_buf.
   */
  lemma ReloadLoaded(buf: seq<char>)
    requires Parse(buf, 0).Node?
    ensures Clean(Parse(buf, 0).tree) ==> Parse(Dump(Parse(buf, 0).tree), 0) == Node(Parse(buf, 0).tree, |Dump(Parse(buf, 0).tree)|)
    ensures !Clean(Parse(buf, 0).tree) ==> Parse(Dump(Parse(buf, 0).tree), 0).Undefined?
  {
    var t := Parse(buf, 0).tree;
    ParsedClean(buf, 0);
    if Clean(t) {
      LoadSaved(t);
    } else {
      IsAtWhole(Dump(t));
      DumpIsAt(t, Dump(t), 0);
      ParseDumpedLong(t, Dump(t), 0);
    }
  }

  /** A 99-character name loads, but the base saved from it does not load again. */
  lemma LongNameLoads(n: string)
    requires PlainName(n) && |n| == CmdBufLen - 1
    ensures Parse("{" + n + "}", 0) == Node(Leaf(n), |n| + 2)
    ensures Parse(Dump(Leaf(n)), 0).Undefined?
  {
    var buf := "{" + n + "}";
    assert SkipSpaces(buf, 0) == 0 && SkipSpaces(buf, 1) == 1;
    RunEndAt(buf, 1, |n|);
    assert buf[1..|n| + 1] == n;
    assert Parse(buf, 0) == Rest(buf, TrimEnd(n), |n| + 1);
    ReloadLoaded(buf);
  }

  // ---------------------------------------------------------------------------
  // find_node_and_fill_stack

  /** What find_node_and_fill_stack pushes for one ancestor */
  datatype Feature = Feature(str: string, applicable: bool)

  /**
   * The features from the root down to the leftmost leaf named name: each
   * inner node's feature, applicable when the path goes to its left child.
   */
  function Path(t: Tree, name: string): (r: Option<seq<Feature>>)
    ensures r.Some? <==> name in Leaves(t)
  {
    match t
    case Leaf(n) => if n == name then Some([]) else None
    case Question(f, y, n) =>
      match Path(y, name)
      case Some(fs) => Some([Feature(f, true)] + fs)
      case None =>
        match Path(n, name)
        case Some(fs) => Some([Feature(f, false)] + fs)
        case None => None
  }

  /** The subtree reached by a sequence of answers, true for yes */
  function Sub(t: Tree, dirs: seq<bool>): Option<Tree> {
    if dirs == [] then Some(t)
    else
      match t
      case Leaf(_) => None
      case Question(_, y, n) => Sub(if dirs[0] then y else n, dirs[1..])
  }

  function Directions(fs: seq<Feature>): (dirs: seq<bool>)
    ensures |dirs| == |fs| && forall i :: 0 <= i < |fs| ==> dirs[i] == fs[i].applicable
  {
    seq(|fs|, i requires 0 <= i < |fs| => fs[i].applicable)
  }

  /** Going yes at the first place where two walks part */
  predicate LeftOf(a: seq<bool>, b: seq<bool>)
    decreases |a|
  {
    a != [] && b != [] && ((a[0] && !b[0]) || (a[0] == b[0] && LeftOf(a[1..], b[1..])))
  }

  /** The path taken below the root of an inner node */
  lemma PathTail(t: Tree, name: string)
    requires t.Question? && Path(t, name).Some?
    ensures var fs := Path(t, name).value;
      && fs != [] && fs[0].str == t.feature
      && Path(if fs[0].applicable then t.yes else t.no, name) == Some(fs[1..])
      && (!fs[0].applicable ==> name !in Leaves(t.yes))
  {
  }

  /** The path leads to a leaf with that name. */
  lemma {:induction false} PathReaches(t: Tree, name: string)
    requires Path(t, name).Some?
    ensures Sub(t, Directions(Path(t, name).value)) == Some(Leaf(name))
  {
    if t.Question? {
      var fs := Path(t, name).value;
      PathTail(t, name);
      assert Directions(fs)[1..] == Directions(fs[1..]);
      PathReaches(if fs[0].applicable then t.yes else t.no, name);
    }
  }

  /** Each feature on the path is the feature of the inner node it was pushed for. */
  lemma {:induction false} PathFeatures(t: Tree, name: string, i: nat)
    requires Path(t, name).Some? && i < |Path(t, name).value|
    ensures var fs := Path(t, name).value;
      && Sub(t, Directions(fs)[..i]).Some? && Sub(t, Directions(fs)[..i]).value.Question?
      && Sub(t, Directions(fs)[..i]).value.feature == fs[i].str
  {
    var fs := Path(t, name).value;
    PathTail(t, name);
    if i > 0 {
      assert Directions(fs)[..i][1..] == Directions(fs[1..])[..i - 1];
      PathFeatures(if fs[0].applicable then t.yes else t.no, name, i - 1);
    }
  }

  /** find_node_and_fill_stack searches left first: no leaf with that name lies left of the path. */
  lemma {:induction false} PathLeftmost(t: Tree, name: string, dirs: seq<bool>)
    requires Path(t, name).Some? && Sub(t, dirs).Some? && Sub(t, dirs).value.Leaf?
    requires Sub(t, dirs).value.name == name
    ensures !LeftOf(dirs, Directions(Path(t, name).value))
    decreases |dirs|
  {
    var fs := Path(t, name).value;
    var ds := Directions(fs);
    if dirs != [] && ds != [] && t.Question? {
      PathTail(t, name);
      if dirs[0] && !ds[0] {
        SubLeaves(t.yes, dirs[1..]);
      } else if dirs[0] == ds[0] {
        assert ds[1..] == Directions(fs[1..]);
        PathLeftmost(if dirs[0] then t.yes else t.no, name, dirs[1..]);
      }
    }
  }

  /** A leaf reached by some walk is one of the tree's leaves. */
  lemma {:induction false} SubLeaves(t: Tree, dirs: seq<bool>)
    ensures Sub(t, dirs).Some? && Sub(t, dirs).value.Leaf? ==> Sub(t, dirs).value.name in Leaves(t)
    decreases |dirs|
  {
    if dirs != [] && t.Question? {
      SubLeaves(if dirs[0] then t.yes else t.no, dirs[1..]);
    }
  }

  /**
   * find_node_and_fill_stack: on success pushes one feature per ancestor of
   * the leaf, the leaf's parent first and the root last, and adds their
   * number to the depth; on failure leaves both alone.
   */
  method FindNodeAndFillStack(t: Tree, name: string, stk: seq<Feature>, depth: int)
    returns (found: bool, stk': seq<Feature>, depth': int)
    ensures found <==> name in Leaves(t)
    ensures found ==> stk' == stk + Reversed(Path(t, name).value) && depth' == depth + |Path(t, name).value|
    ensures !found ==> stk' == stk && depth' == depth
  {
    match t
    case Question(f, y, n) =>
      found, stk', depth' := FindNodeAndFillStack(y, name, stk, depth);
      if found {
        stk' := stk' + [Feature(f, true)];
        assert Reversed([Feature(f, true)] + Path(y, name).value) == Reversed(Path(y, name).value) + [Feature(f, true)];
        return true, stk', depth' + 1;
      }
      found, stk', depth' := FindNodeAndFillStack(n, name, stk, depth);
      if found {
        stk' := stk' + [Feature(f, false)];
        assert Reversed([Feature(f, false)] + Path(n, name).value) == Reversed(Path(n, name).value) + [Feature(f, false)];
        return true, stk', depth' + 1;
      }
      return false, stk, depth;
    case Leaf(n) =>
      return n == name, stk, depth;
  }

  // ---------------------------------------------------------------------------
  // akinator_play and add_new_entry

  /** add_new_entry on a leaf: the difference asks about the new object, which goes left; the previous one goes right */
  function AddNewEntry(prev: string, name: string, diff: string): (r: Tree)
    ensures r.Question? && r.feature == diff && r.yes == Leaf(name) && r.no == Leaf(prev)
  {
    Question(diff, Leaf(name), Leaf(prev))
  }

  /** t with the subtree at dirs replaced by u */
  function Plug(t: Tree, dirs: seq<bool>, u: Tree): Tree {
    if dirs == [] then u
    else
      match t
      case Leaf(_) => t
      case Question(f, y, n) =>
        if dirs[0] then Question(f, Plug(y, dirs[1..], u), n) else Question(f, y, Plug(n, dirs[1..], u))
  }

  /**
   * The base after a game on subtree t read from line i: yes goes left, no
   * goes right, an unrecognised answer ends the game; at a leaf a no adds an
   * entry from the next two lines (the new object, then the difference).
   */
  function Game(t: Tree, input: seq<string>, i: nat): (r: Tree)
    ensures Leaves(t) <= Leaves(r)
    ensures t.Question? ==> r.Question? && r.feature == t.feature
  {
    var (a, j) := AskIsRight(input, i);
    match t
    case Question(f, y, n) =>
      if a == AnsYes then Question(f, Game(y, input, j), n)
      else if a == AnsNo then Question(f, y, Game(n, input, j))
      else t
    case Leaf(prev) =>
      if a == AnsNo then AddNewEntry(prev, Line(input, j), Line(input, j + 1)) else t
  }

  /** Putting back a subtree where it was changes nothing. */
  lemma {:induction false} PlugSub(t: Tree, dirs: seq<bool>)
    requires Sub(t, dirs).Some?
    ensures Plug(t, dirs, Sub(t, dirs).value) == t
    decreases |dirs|
  {
    if dirs != [] {
      PlugSub(if dirs[0] then t.yes else t.no, dirs[1..]);
    }
  }

  /** Replacing an inner node by one with a new child is replacing that child one level down. */
  lemma {:induction false} PlugStep(t: Tree, dirs: seq<bool>, f: string, y: Tree, n: Tree, left: bool, u: Tree)
    requires Sub(t, dirs) == Some(Question(f, y, n))
    ensures Plug(t, dirs, if left then Question(f, u, n) else Question(f, y, u)) == Plug(t, dirs + [left], u)
    ensures Sub(t, dirs + [left]) == Some(if left then y else n)
    decreases |dirs|
  {
    if dirs != [] {
      assert (dirs + [left])[1..] == dirs[1..] + [left];
      PlugStep(if dirs[0] then t.yes else t.no, dirs[1..], f, y, n, left, u);
    }
  }

  /**
   * akinator_play: walks from the root along the player's answers and, where
   * the guess at the leaf is wrong, expands that leaf in place.
   */
  method Play(root: Tree, input: seq<string>) returns (t: Tree)
    ensures t == Game(root, input, 0)
  {
    var cur := root;
    var path: seq<bool> := [];
    var i := 0;
    while cur.Question?
      invariant Sub(root, path) == Some(cur)
      invariant Game(root, input, 0) == Plug(root, path, Game(cur, input, i))
      decreases cur
    {
      var (a, j) := AskIsRight(input, i);
      if a == AnsYes {
        PlugStep(root, path, cur.feature, cur.yes, cur.no, true, Game(cur.yes, input, j));
        cur, path := cur.yes, path + [true];
      } else if a == AnsNo {
        PlugStep(root, path, cur.feature, cur.yes, cur.no, false, Game(cur.no, input, j));
        cur, path := cur.no, path + [false];
      } else {
        PlugSub(root, path);
        return root;
      }
      i := j;
    }
    var (a, j) := AskIsRight(input, i);
    if a == AnsNo {
      t := Plug(root, path, AddNewEntry(cur.name, Line(input, j), Line(input, j + 1)));
    } else {
      PlugSub(root, path);
      t := root;
    }
  }

  /** u is t with the leaf prev at dirs replaced by the question between name and prev */
  predicate ExpandedAt(t: Tree, u: Tree, dirs: seq<bool>, prev: string, name: string, diff: string) {
    Sub(t, dirs) == Some(Leaf(prev)) && u == Plug(t, dirs, AddNewEntry(prev, name, diff))
  }

  /**
   * The walk a game takes from subtree t reading from line i: the answers
   * given, true for yes, down to the leaf whose guess is asked, and the line
   * that guess is asked on. An unrecognised answer stops the walk where it is.
   */
  function Walk(t: Tree, input: seq<string>, i: nat): (r: (seq<bool>, nat))
    ensures Sub(t, r.0).Some?
    ensures r.1 >= i
  {
    match t
    case Leaf(_) => ([], i)
    case Question(_, y, n) =>
      var (a, j) := AskIsRight(input, i);
      if a == AnsYes then var (d, k) := Walk(y, input, j); ([true] + d, k)
      else if a == AnsNo then var (d, k) := Walk(n, input, j); ([false] + d, k)
      else ([], i)
  }

  /**
   * The game from line i leaves t as it is, or the guess at the end of its
   * walk is answered no, that guess is a leaf, and the game expands it with
   * the object on the next line and the difference on the line after.
   */
  predicate ExpandsAlongWalk(t: Tree, input: seq<string>, i: nat) {
    var (dirs, k) := Walk(t, input, i);
    var (a, j) := AskIsRight(input, k);
    Game(t, input, i) == t
    || (a == AnsNo && Sub(t, dirs).value.Leaf?
        && ExpandedAt(t, Game(t, input, i), dirs, Sub(t, dirs).value.name, Line(input, j), Line(input, j + 1)))
  }

  /** One answered question: what holds for the child the answer leads to holds for the node. */
  lemma ExpandsAlongWalkStep(t: Tree, input: seq<string>, i: nat)
    requires t.Question? && AskIsRight(input, i).0 != AnsError
    requires ExpandsAlongWalk(if AskIsRight(input, i).0 == AnsYes then t.yes else t.no, input, AskIsRight(input, i).1)
    ensures ExpandsAlongWalk(t, input, i)
  {
    var (a, j) := AskIsRight(input, i);
    var child := if a == AnsYes then t.yes else t.no;
    var (d, k) := Walk(child, input, j);
    var dirs := [a == AnsYes] + d;
    assert Walk(t, input, i) == (dirs, k);
    assert dirs[1..] == d;
    assert Sub(t, dirs) == Sub(child, d);
    if Game(child, input, j) != child {
      var (b, m) := AskIsRight(input, k);
      var u := AddNewEntry(Sub(child, d).value.name, Line(input, m), Line(input, m + 1));
      assert Plug(t, dirs, u) == if a == AnsYes then Question(t.feature, Plug(t.yes, d, u), t.no) else Question(t.feature, t.yes, Plug(t.no, d, u));
    }
  }

  /**
   * A game changes at most one leaf of the base: the one its answers lead
   * to, and only when the guess there is answered no; that leaf becomes a
   * question between the object on the next line and the previous one, told
   * apart by the line after it.
   */
  lemma {:induction false} GameExpandsOneLeaf(t: Tree, input: seq<string>, i: nat)
    ensures ExpandsAlongWalk(t, input, i)
  {
    var (a, j) := AskIsRight(input, i);
    if t.Question? && a != AnsError {
      GameExpandsOneLeaf(if a == AnsYes then t.yes else t.no, input, j);
      ExpandsAlongWalkStep(t, input, i);
    }
  }

  /** After expanding a leaf, walking there and answering yes finds the new object, no the previous one. */
  lemma {:induction false} ExpandedLeaf(t: Tree, dirs: seq<bool>, prev: string, name: string, diff: string)
    requires Sub(t, dirs) == Some(Leaf(prev))
    ensures Sub(Plug(t, dirs, AddNewEntry(prev, name, diff)), dirs + [true]) == Some(Leaf(name))
    ensures Sub(Plug(t, dirs, AddNewEntry(prev, name, diff)), dirs + [false]) == Some(Leaf(prev))
    decreases |dirs|
  {
    if dirs != [] {
      assert (dirs + [true])[1..] == dirs[1..] + [true];
      assert (dirs + [false])[1..] == dirs[1..] + [false];
      ExpandedLeaf(if dirs[0] then t.yes else t.no, dirs[1..], prev, name, diff);
    }
  }
}
