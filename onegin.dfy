// The line sorter of the Onegin directory: command-line keys, splitting a text
// buffer into NUL-terminated lines, the two line orders (case-insensitive from
// the first non-punctuation character, or from the last one backwards), the
// keyed sort and the choice of lines that print_text writes.
//
// A C string is a sequence of non-NUL characters standing for unsigned chars;
// reading one position past its end yields the terminator (Common.At).

module Onegin {
  import opened Common
  import Sorting

  // ---------------------------------------------------------------------------
  // Keys (onegin_toolkit.h)

  /** The keys; a keys value of the source is the set of keys whose bit it has set. */
  datatype Key = Help | Error | FilenameTo | FilenameFrom | Enumerate | NoSort | Reverse | SortFromEnd

  type Keys = set<Key>

  /** The bit of each key */
  function Bit(k: Key): bv32 {
    match k
    case Help => 0x1
    case Error => 0x2
    case FilenameTo => 0x10
    case FilenameFrom => 0x20
    case Enumerate => 0x40
    case NoSort => 0x100
    case Reverse => 0x200
    case SortFromEnd => 0x400
  }

  const DefaultFrom: string := "Shakespeare.txt"
  const DefaultTo: string := "Sorted.txt"

  /** The key one character of a key argument switches on; an unknown one asks for help */
  function KeyOf(c: char): (r: Key)
    ensures c == 'n' <==> r == Enumerate
    ensures c == 'e' <==> r == SortFromEnd
    ensures c == 's' <==> r == NoSort
    ensures c == 'r' <==> r == Reverse
    ensures c !in "nesr" <==> r == Help
  {
    match c
    case 'n' => Enumerate
    case 'h' => Help
    case 'e' => SortFromEnd
    case 's' => NoSort
    case 'r' => Reverse
    case _ => Help
  }

  /** The keys of a whole key argument: the union of its characters' keys */
  function KeysOf(s: seq<char>): (r: Keys)
    ensures forall i :: 0 <= i < |s| ==> KeyOf(s[i]) in r
    ensures r <= {Help, Enumerate, SortFromEnd, NoSort, Reverse}
  {
    if s == [] then {} else
      var p := s[..|s| - 1];
      assert forall i :: 0 <= i < |p| ==> p[i] == s[i];
      KeysOf(p) + {KeyOf(s[|s| - 1])}
  }

  /** Each letter switches on its own key, anything but n, e, s, r switches on help, and nothing else is set. */
  lemma {:induction false} KeysOfFlags(s: seq<char>)
    ensures Enumerate in KeysOf(s) <==> 'n' in s
    ensures SortFromEnd in KeysOf(s) <==> 'e' in s
    ensures NoSort in KeysOf(s) <==> 's' in s
    ensures Reverse in KeysOf(s) <==> 'r' in s
    ensures Help in KeysOf(s) <==> exists i :: 0 <= i < |s| && s[i] !in "nesr"
    ensures Error !in KeysOf(s) && FilenameTo !in KeysOf(s) && FilenameFrom !in KeysOf(s)
  {
    if s != [] {
      var p, c := s[..|s| - 1], s[|s| - 1];
      assert s == p + [c];
      KeysOfFlags(p);
      if exists i :: 0 <= i < |s| && s[i] !in "nesr" {
        var i :| 0 <= i < |s| && s[i] !in "nesr";
        if i < |p| {
          assert p[i] == s[i];
        }
      }
      if exists i :: 0 <= i < |p| && p[i] !in "nesr" {
        var i :| 0 <= i < |p| && p[i] !in "nesr";
        assert s[i] == p[i];
      }
    }
  }

  /** get_keys: the characters are read one at a time and their keys OR'ed together */
  method GetKeys(s: seq<char>) returns (keys: Keys)
    requires IsCString(s)
    ensures keys == KeysOf(s)
  {
    keys := {};
    var i := 0;
    while i < |s|
      invariant 0 <= i <= |s|
      invariant keys == KeysOf(s[..i])
    {
      assert s[..i + 1][..i] == s[..i];
      keys := keys + {KeyOf(s[i])};
      i := i + 1;
    }
    assert s[..i] == s;
  }

  // ---------------------------------------------------------------------------
  // parse_arguments

  /** The keys and the two file names */
  datatype Arguments = Arguments(keys: Keys, from: string, to: string)

  /** What the argument loop makes of one argument */
  datatype ArgKind =
    | PlainArg   // does not start with '-': the loop stops
    | NameTo     // exactly "-o": the next argument names the output file
    | NameFrom   // exactly "-i": the next argument names the input file
    | Letters    // any other '-' argument: key letters

  function KindOf(a: string): (k: ArgKind)
    ensures k == PlainArg <==> a == [] || a[0] != '-'
    ensures k == NameTo <==> a == "-o"
    ensures k == NameFrom <==> a == "-i"
    ensures k == Letters ==> |a| > 0
  {
    if a == [] || a[0] != '-' then PlainArg
    else if a == "-o" then NameTo
    else if a == "-i" then NameFrom
    else Letters
  }

  /** An argument that only carries key letters */
  predicate KeyWord(a: string) {
    KindOf(a) == Letters
  }

  /** Unset names fall back to the defaults. */
  function Finish(keys: Keys, from: Option<string>, to: Option<string>): (r: Arguments)
    ensures from.Some? ==> r.from == from.value
    ensures from.None? ==> r.from == DefaultFrom
    ensures to.Some? ==> r.to == to.value
    ensures to.None? ==> r.to == DefaultTo
    ensures r.keys == keys
  {
    Arguments(keys, if from.Some? then from.value else DefaultFrom, if to.Some? then to.value else DefaultTo)
  }

  /**
   * The arguments after the program name, consumed from the front. Keys are
   * only added, except that a missing name leaves help alone; no argument
   * sets the error key.
   */
  function Scan(args: seq<string>, keys: Keys, from: Option<string>, to: Option<string>): (r: Arguments)
    ensures keys <= r.keys || r.keys == {Help}
    ensures Error !in keys ==> Error !in r.keys
    decreases |args|
  {
    if args == [] then Finish(keys, from, to)
    else match KindOf(args[0])
      case PlainArg => Finish(keys, from, to)
      case NameTo =>
        if |args| > 1 then Scan(args[2..], keys + {FilenameTo}, from, Some(args[1]))
        else Finish({Help}, from, to)
      case NameFrom =>
        if |args| > 1 then Scan(args[2..], keys + {FilenameFrom}, Some(args[1]), to)
        else Finish({Help}, from, to)
      case Letters =>
        KeysOfFlags(args[0][1..]);
        Scan(args[1..], keys + KeysOf(args[0][1..]), from, to)
  }

  /** What parse_arguments leaves: argv[0] is the program's name */
  function Parse(argv: seq<string>): (r: Arguments)
    ensures Error !in r.keys
    ensures |argv| <= 1 ==> r == Arguments({}, DefaultFrom, DefaultTo)
  {
    Scan(if argv == [] then [] else argv[1..], {}, None, None)
  }

  /** parse_arguments */
  method ParseArguments(argv: seq<string>) returns (keys: Keys, from: string, to: string)
    requires forall i :: 0 <= i < |argv| ==> IsCString(argv[i])
    ensures Arguments(keys, from, to) == Parse(argv)
  {
    keys := {};
    var f: Option<string> := None;
    var t: Option<string> := None;
    var i := 1;
    while i < |argv|
      invariant 1 <= i && (argv != [] ==> i <= |argv|)
      invariant i <= |argv| ==> Scan(argv[i..], keys, f, t) == Parse(argv)
      invariant argv == [] ==> keys == {} && f.None? && t.None?
      decreases |argv| - i
    {
      var kind := KindOf(argv[i]);
      if kind == PlainArg {
        assert argv[i..][0] == argv[i];
        assert Scan(argv[i..], keys, f, t) == Finish(keys, f, t);
        break;
      } else if kind == NameTo {
        ghost var rest := argv[i..];
        i := i + 1;
        if i < |argv| {
          assert rest[1] == argv[i] && rest[2..] == argv[i + 1..];
          t := Some(argv[i]);
          keys := keys + {FilenameTo};
        } else {
          assert rest == [rest[0]];
          keys := {Help};
          return keys, if f.Some? then f.value else DefaultFrom, if t.Some? then t.value else DefaultTo;
        }
      } else if kind == NameFrom {
        ghost var rest := argv[i..];
        i := i + 1;
        if i < |argv| {
          assert rest[1] == argv[i] && rest[2..] == argv[i + 1..];
          f := Some(argv[i]);
          keys := keys + {FilenameFrom};
        } else {
          assert rest == [rest[0]];
          keys := {Help};
          return keys, if f.Some? then f.value else DefaultFrom, if t.Some? then t.value else DefaultTo;
        }
      } else {
        assert argv[i..][1..] == argv[i + 1..];
        var k := GetKeys(argv[i][1..]);
        keys := keys + k;
      }
      i := i + 1;
    }
    if i >= |argv| && argv != [] {
      assert argv[i..] == [];
    }
    from := if f.Some? then f.value else DefaultFrom;
    to := if t.Some? then t.value else DefaultTo;
  }

  /** A key argument without its '-' */
  function Unflag(w: string): string {
    if w == [] then [] else w[1..]
  }

  /** The OR of the keys of a run of key arguments */
  function KeysOfWords(args: seq<string>): Keys {
    if args == [] then {} else
      var w := args[|args| - 1];
      KeysOfWords(args[..|args| - 1]) + KeysOf(Unflag(w))
  }

  /** Key arguments alone: their keys are OR'ed and neither name changes. */
  lemma {:induction false} KeyWordsOnly(args: seq<string>, keys: Keys, from: Option<string>, to: Option<string>)
    requires forall i :: 0 <= i < |args| ==> KeyWord(args[i])
    ensures Scan(args, keys, from, to) == Finish(keys + KeysOfWords(args), from, to)
  {
    if args == [] {
    } else {
      assert KeyWord(args[0]);
      UnflagWord(args[0]);
      var a, b := KeysOf(args[0][1..]), KeysOfWords(args[1..]);
      LettersStep(args, keys, from, to);
      KeyWordsOnly(args[1..], keys + a, from, to);
      KeysOfWordsCons(args);
      assert (keys + a) + b == keys + (a + b);
    }
  }

  /** A key argument at the front is consumed on its own. */
  lemma LettersStep(args: seq<string>, keys: Keys, from: Option<string>, to: Option<string>)
    requires args != [] && KeyWord(args[0])
    ensures Scan(args, keys, from, to) == Scan(args[1..], keys + KeysOf(args[0][1..]), from, to)
  {
  }

  lemma UnflagWord(w: string)
    requires w != []
    ensures Unflag(w) == w[1..]
  {
  }

  /** The first key argument's keys can be taken first. */
  lemma {:induction false} KeysOfWordsCons(args: seq<string>)
    requires args != []
    ensures KeysOfWords(args) == KeysOf(Unflag(args[0])) + KeysOfWords(args[1..])
  {
    if |args| > 1 {
      var p := args[..|args| - 1];
      KeysOfWordsCons(p);
      assert p[1..] == args[1..][..|args[1..]| - 1];
      assert p[0] == args[0];
    } else {
      assert args[1..] == [];
    }
  }

  /** Everything after the first plain argument is ignored. */
  lemma {:induction false} PlainEndsScan(args: seq<string>, p: string, rest: seq<string>, keys: Keys, from: Option<string>, to: Option<string>)
    requires forall i :: 0 <= i < |args| ==> KeyWord(args[i])
    requires KindOf(p) == PlainArg
    ensures Scan(args + [p] + rest, keys, from, to) == Scan(args, keys, from, to)
  {
    if args == [] {
      assert (args + [p] + rest)[0] == p;
    } else {
      assert (args + [p] + rest)[1..] == args[1..] + [p] + rest;
      PlainEndsScan(args[1..], p, rest, keys + KeysOf(args[0][1..]), from, to);
    }
  }

  /** A trailing -o or -i with no name after it throws the keys away for the help key alone. */
  lemma {:induction false} MissingName(args: seq<string>, last: string, keys: Keys, from: Option<string>, to: Option<string>)
    requires forall i :: 0 <= i < |args| ==> KeyWord(args[i])
    requires last == "-o" || last == "-i"
    ensures Scan(args + [last], keys, from, to) == Finish({Help}, from, to)
  {
    if args == [] {
      assert (args + [last]) == [last];
    } else {
      assert (args + [last])[1..] == args[1..] + [last];
      MissingName(args[1..], last, keys + KeysOf(args[0][1..]), from, to);
    }
  }

  /** Some argument key is immediately followed by name */
  predicate NamedBy(args: seq<string>, key: string, name: string) {
    exists i :: 0 < i < |args| && args[i - 1] == key && args[i] == name
  }

  lemma NamedByTail(args: seq<string>, n: nat, key: string, name: string)
    requires n <= |args| && NamedBy(args[n..], key, name)
    ensures NamedBy(args, key, name)
  {
    var i :| 0 < i < |args[n..]| && args[n..][i - 1] == key && args[n..][i] == name;
    assert args[n + i - 1] == key && args[n + i] == name;
  }

  /**
   * The input name is the one it started as, the default when it was unset, or
   * the argument after an -i; with its key set it is not the default.
   */
  lemma {:induction false} InputName(args: seq<string>, keys: Keys, from: Option<string>, to: Option<string>)
    requires FilenameFrom in keys ==> from.Some?
    ensures var r := Scan(args, keys, from, to);
      && ((from.Some? && r.from == from.value) || (from.None? && r.from == DefaultFrom) || NamedBy(args, "-i", r.from))
      && (FilenameFrom in r.keys ==> (from.Some? && r.from == from.value) || NamedBy(args, "-i", r.from))
    decreases |args|
  {
    if args == [] || KindOf(args[0]) == PlainArg {
    } else if KindOf(args[0]) == NameTo {
      if |args| > 1 {
        var k := keys + {FilenameTo};
        assert FilenameFrom in k ==> FilenameFrom in keys;
        InputName(args[2..], k, from, Some(args[1]));
        var r := Scan(args[2..], k, from, Some(args[1]));
        assert Scan(args, keys, from, to) == r;
        assert NamedBy(args, "-o", args[1]) by {
          assert args[0] == "-o";
        }
        if NamedBy(args[2..], "-i", r.from) {
          NamedByTail(args, 2, "-i", r.from);
        }
      } else {
        assert FilenameFrom !in {Help};
      }
    } else if KindOf(args[0]) == NameFrom {
      if |args| > 1 {
        var k := keys + {FilenameFrom};
        InputName(args[2..], k, Some(args[1]), to);
        var r := Scan(args[2..], k, Some(args[1]), to);
        assert Scan(args, keys, from, to) == r;
        assert NamedBy(args, "-i", args[1]) by {
          assert args[0] == "-i";
        }
        if NamedBy(args[2..], "-i", r.from) {
          NamedByTail(args, 2, "-i", r.from);
        }
      } else {
        assert FilenameFrom !in {Help};
      }
    } else {
      var k := keys + KeysOf(args[0][1..]);
      KeysOfFlags(args[0][1..]);
      assert FilenameFrom in k ==> FilenameFrom in keys;
      InputName(args[1..], k, from, to);
      var r := Scan(args[1..], k, from, to);
      assert Scan(args, keys, from, to) == r;
      if NamedBy(args[1..], "-i", r.from) {
        NamedByTail(args, 1, "-i", r.from);
      }
    }
  }

  /** The same for the output name and -o */
  lemma {:induction false} OutputName(args: seq<string>, keys: Keys, from: Option<string>, to: Option<string>)
    requires FilenameTo in keys ==> to.Some?
    ensures var r := Scan(args, keys, from, to);
      && ((to.Some? && r.to == to.value) || (to.None? && r.to == DefaultTo) || NamedBy(args, "-o", r.to))
      && (FilenameTo in r.keys ==> (to.Some? && r.to == to.value) || NamedBy(args, "-o", r.to))
    decreases |args|
  {
    if args == [] || KindOf(args[0]) == PlainArg {
    } else if KindOf(args[0]) == NameTo {
      if |args| > 1 {
        var k := keys + {FilenameTo};
        OutputName(args[2..], k, from, Some(args[1]));
        var r := Scan(args[2..], k, from, Some(args[1]));
        assert Scan(args, keys, from, to) == r;
        assert NamedBy(args, "-o", args[1]) by {
          assert args[0] == "-o";
        }
        if NamedBy(args[2..], "-o", r.to) {
          NamedByTail(args, 2, "-o", r.to);
        }
      } else {
        assert FilenameTo !in {Help};
      }
    } else if KindOf(args[0]) == NameFrom {
      if |args| > 1 {
        var k := keys + {FilenameFrom};
        assert FilenameTo in k ==> FilenameTo in keys;
        OutputName(args[2..], k, Some(args[1]), to);
        var r := Scan(args[2..], k, Some(args[1]), to);
        assert Scan(args, keys, from, to) == r;
        assert NamedBy(args, "-i", args[1]) by {
          assert args[0] == "-i";
        }
        if NamedBy(args[2..], "-o", r.to) {
          NamedByTail(args, 2, "-o", r.to);
        }
      } else {
        assert FilenameTo !in {Help};
      }
    } else {
      var k := keys + KeysOf(args[0][1..]);
      KeysOfFlags(args[0][1..]);
      assert FilenameTo in k ==> FilenameTo in keys;
      OutputName(args[1..], k, from, to);
      var r := Scan(args[1..], k, from, to);
      assert Scan(args, keys, from, to) == r;
      if NamedBy(args[1..], "-o", r.to) {
        NamedByTail(args, 1, "-o", r.to);
      }
    }
  }

  /**
   * parse_arguments' names: each is the default or the argument after an -i
   * (-o), and when its key is set it is the latter.
   */
  lemma ParseNames(argv: seq<string>)
    requires argv != []
    ensures var r := Parse(argv);
      (r.from == DefaultFrom || NamedBy(argv[1..], "-i", r.from)) && (r.to == DefaultTo || NamedBy(argv[1..], "-o", r.to))
    ensures var r := Parse(argv);
      FilenameFrom in r.keys ==> NamedBy(argv[1..], "-i", r.from)
    ensures var r := Parse(argv);
      FilenameTo in r.keys ==> NamedBy(argv[1..], "-o", r.to)
  {
    InputName(argv[1..], {}, None, None);
    OutputName(argv[1..], {}, None, None);
  }

  // ---------------------------------------------------------------------------
  // index_text

  /** The buffer after its newlines become terminators */
  function Blank(s: seq<char>): (t: seq<char>)
    ensures |t| == |s|
    ensures forall i :: 0 <= i < |s| ==> t[i] == (if s[i] == '\n' then '\0' else s[i])
  {
    seq(|s|, i requires 0 <= i < |s| => if s[i] == '\n' then '\0' else s[i])
  }

  /** Occurrences of c among the first m characters */
  function CountIn(s: seq<char>, c: char, m: nat): nat
    requires m <= |s|
  {
    if m == 0 then 0 else CountIn(s, c, m - 1) + (if s[m - 1] == c then 1 else 0)
  }

  lemma {:induction false} CountMonotone(s: seq<char>, c: char, m: nat, m': nat)
    requires m <= m' <= |s|
    ensures CountIn(s, c, m) <= CountIn(s, c, m')
  {
    if m < m' {
      CountMonotone(s, c, m, m' - 1);
    }
  }

  /** A text free of NULs has as many terminators after blanking as it had newlines. */
  lemma {:induction false} BlankCounts(s: seq<char>, m: nat)
    requires m <= |s| && '\0' !in s
    ensures CountIn(Blank(s), '\0', m) == CountIn(s, '\n', m)
  {
    if m > 0 {
      BlankCounts(s, m - 1);
      assert s[m - 1] != '\0';
    }
  }

  /** Positions p with 0 < p < n that follow a terminator, in increasing order */
  function After(t: seq<char>, n: nat): seq<nat>
    requires n <= |t|
  {
    if n <= 1 then [] else After(t, n - 1) + (if t[n - 2] == '\0' then [n - 1] else [])
  }

  /** The line starts index_text records */
  function Starts(t: seq<char>): seq<nat> {
    [0] + After(t, |t|)
  }

  lemma {:induction false} AfterCount(t: seq<char>, n: nat)
    requires 1 <= n <= |t|
    ensures |After(t, n)| == CountIn(t, '\0', n - 1)
  {
    if n > 1 {
      AfterCount(t, n - 1);
    }
  }

  /** After lists exactly the positions below n that follow a terminator, strictly increasing. */
  lemma {:induction false} AfterExact(t: seq<char>, n: nat)
    requires n <= |t|
    ensures forall p :: p in After(t, n) <==> 0 < p < n && t[p - 1] == '\0'
    ensures forall i, j :: 0 <= i < j < |After(t, n)| ==> After(t, n)[i] < After(t, n)[j]
    ensures forall i :: 0 <= i < |After(t, n)| ==> 0 < After(t, n)[i] < n
  {
    if n > 1 {
      AfterExact(t, n - 1);
      var a, e := After(t, n - 1), if t[n - 2] == '\0' then [n - 1] else [];
      var b := a + e;
      assert After(t, n) == b;
      forall p ensures p in b <==> 0 < p < n && t[p - 1] == '\0' {
        assert p in b <==> p in a || p in e;
      }
      forall i | 0 <= i < |b| ensures 0 < b[i] < n {
        if i < |a| { assert b[i] == a[i]; }
      }
      forall i, j | 0 <= i < j < |b| ensures b[i] < b[j] {
        if j < |a| { assert b[i] == a[i] && b[j] == a[j]; }
        else { assert b[i] == a[i]; }
      }
    }
  }

  /** index[0] is the buffer's start, and the other entries are exactly the positions after a terminator, in order. */
  lemma StartsExact(t: seq<char>)
    ensures forall p :: p in Starts(t) <==> p == 0 || (0 < p < |t| && t[p - 1] == '\0')
    ensures forall i, j :: 0 <= i < j < |Starts(t)| ==> Starts(t)[i] < Starts(t)[j]
  {
    AfterExact(t, |t|);
    var a := After(t, |t|);
    forall i, j | 0 <= i < j < |Starts(t)|
      ensures Starts(t)[i] < Starts(t)[j]
    {
      if i > 0 {
        assert Starts(t)[i] == a[i - 1] && Starts(t)[j] == a[j - 1];
      } else {
        assert Starts(t)[j] == a[j - 1];
      }
    }
  }

  /** One start per newline of a text that ends in a newline */
  lemma StartsCount(s: seq<char>)
    requires |s| > 0 && s[|s| - 1] == '\n' && '\0' !in s
    ensures |Starts(Blank(s))| == CountIn(s, '\n', |s|)
  {
    var t := Blank(s);
    AfterCount(t, |t|);
    BlankCounts(s, |s|);
    BlankCounts(s, |s| - 1);
  }

  /**
   * index_text: newlines become terminators, then the start of every line is
   * recorded. The index has one entry per newline; a text that does not end in
   * a newline, or that holds a NUL, would overrun it.
   */
  method IndexText(text: array<char>) returns (index: array<nat>)
    requires text.Length > 0 && text[text.Length - 1] == '\n' && '\0' !in text[..]
    modifies text
    ensures text[..] == Blank(old(text[..]))
    ensures index.Length == CountIn(old(text[..]), '\n', text.Length)
    ensures index[..] == Starts(text[..])
    ensures fresh(index)
  {
    ghost var s := text[..];
    var count := BlankNewlines(text);
    StartsCount(s);
    index := RecordStarts(text, count);
  }

  /** The first loop of index_text: newlines become terminators and are counted. */
  method BlankNewlines(text: array<char>) returns (count: nat)
    modifies text
    ensures text[..] == Blank(old(text[..]))
    ensures count == CountIn(old(text[..]), '\n', text.Length)
  {
    ghost var s := text[..];
    count := 0;
    var i := 0;
    while i < text.Length
      invariant 0 <= i <= text.Length
      invariant forall j :: 0 <= j < i ==> text[j] == (if s[j] == '\n' then '\0' else s[j])
      invariant forall j :: i <= j < text.Length ==> text[j] == s[j]
      invariant count == CountIn(s, '\n', i)
    {
      if text[i] == '\n' {
        text[i] := '\0';
        count := count + 1;
      }
      i := i + 1;
    }
    assert text[..] == Blank(s);
  }

  /** The second loop of index_text: the start of the buffer, then every position after a terminator. */
  method RecordStarts(text: array<char>, count: nat) returns (index: array<nat>)
    requires text.Length > 0 && count == |Starts(text[..])|
    ensures index[..] == Starts(text[..])
    ensures fresh(index)
  {
    ghost var t := text[..];
    AfterCount(t, |t|);
    index := new nat[count];
    index[0] := 0;
    var c := 1;
    var i := 1;
    while i < text.Length
      invariant 1 <= i <= text.Length
      invariant c == 1 + |After(t, i)| && c <= count
      invariant index[..c] == [0] + After(t, i)
    {
      AfterCount(t, i);
      AfterCount(t, i + 1);
      if text[i - 1] == '\0' {
        CountMonotone(t, '\0', i, |t| - 1);
        index[c] := i;
        assert index[..c + 1] == index[..c] + [i];
        c := c + 1;
      }
      i := i + 1;
    }
    assert index[..] == index[..c];
  }

  // ---------------------------------------------------------------------------
  // strcicmp

  /** A string with every letter lowered, as tolower's codes */
  function Folded(s: seq<char>): (r: seq<int>)
    ensures |r| == |s| && forall i :: 0 <= i < |s| ==> r[i] == ToLower(s[i])
  {
    seq(|s|, i requires 0 <= i < |s| => ToLower(s[i]))
  }

  /**
   * strcicmp: the difference of the lowered codes at the first position where
   * they differ, the terminator included.
   */
  function StrCiCmp(a: seq<char>, b: seq<char>): (r: int)
    ensures IsCString(a) && IsCString(b) && r == 0 ==> |a| == |b|
    decreases |a|
  {
    var d := ToLower(At(a, 0)) - ToLower(At(b, 0));
    if d != 0 || At(a, 0) == '\0' then d else StrCiCmp(a[1..], b[1..])
  }

  /** strcicmp is 0 exactly when the strings agree ignoring ASCII case. */
  lemma {:induction false} StrCiCmpZero(a: seq<char>, b: seq<char>)
    requires IsCString(a) && IsCString(b)
    ensures StrCiCmp(a, b) == 0 <==> Folded(a) == Folded(b)
    decreases |a|
  {
    var d := ToLower(At(a, 0)) - ToLower(At(b, 0));
    if d != 0 {
      assert a != [] ==> Folded(a)[0] == ToLower(a[0]);
      assert b != [] ==> Folded(b)[0] == ToLower(b[0]);
    } else if a != [] {
      assert a[0] != '\0';
      assert Folded(a) == [ToLower(a[0])] + Folded(a[1..]);
      assert Folded(b) == [ToLower(b[0])] + Folded(b[1..]);
      StrCiCmpZero(a[1..], b[1..]);
    }
  }

  /** Swapping the arguments negates the result. */
  lemma {:induction false} StrCiCmpAntisymmetric(a: seq<char>, b: seq<char>)
    ensures StrCiCmp(b, a) == -StrCiCmp(a, b)
    decreases |a|
  {
    var d := ToLower(At(a, 0)) - ToLower(At(b, 0));
    if d == 0 && At(a, 0) != '\0' {
      StrCiCmpAntisymmetric(a[1..], b[1..]);
    }
  }

  /** The order strcicmp defines is transitive. */
  lemma {:induction false} StrCiCmpTransitive(a: seq<char>, b: seq<char>, c: seq<char>)
    requires StrCiCmp(a, b) <= 0 && StrCiCmp(b, c) <= 0
    ensures StrCiCmp(a, c) <= 0
    decreases |a|
  {
    var la, lb, lc := ToLower(At(a, 0)), ToLower(At(b, 0)), ToLower(At(c, 0));
    if la == lb && lb == lc && la != 0 {
      StrCiCmpTransitive(a[1..], b[1..], c[1..]);
    }
  }

  // ---------------------------------------------------------------------------
  // process_punctuation

  /** Forward: the position of the first character that is not punctuation (the terminator at worst) */
  function SkipPunct(s: seq<char>): (r: nat)
    ensures r <= |s|
    ensures forall i :: 0 <= i < r ==> IsPunct(s[i])
    ensures r < |s| ==> !IsPunct(s[r])
  {
    if s == [] || !IsPunct(s[0]) then 0 else 1 + SkipPunct(s[1..])
  }

  /** The walk back from position k over punctuation, stopping at the start */
  function BackOver(s: seq<char>, k: nat): (r: nat)
    requires k < |s|
    ensures r <= k
    ensures forall i :: r < i <= k ==> IsPunct(s[i])
    ensures r == 0 || !IsPunct(s[r])
  {
    if k == 0 || !IsPunct(s[k]) then k else BackOver(s, k - 1)
  }

  /**
   * Reverse: the position of the last character that is not punctuation; all
   * punctuation gives the first character, and the empty string its terminator.
   */
  function LastWord(s: seq<char>): (r: nat)
    ensures s == [] ==> r == 0
    ensures s != [] ==> r < |s| && (r == 0 || !IsPunct(s[r]))
    ensures forall i :: r < i < |s| ==> IsPunct(s[i])
  {
    if s == [] then 0 else BackOver(s, |s| - 1)
  }

  // ---------------------------------------------------------------------------
  // compare and compare_reverse

  /** compare: strcicmp of the two lines from their first non-punctuation character */
  function Compare(a: seq<char>, b: seq<char>): (r: int)
    requires IsCString(a) && IsCString(b)
    ensures r == 0 <==> Folded(a[SkipPunct(a)..]) == Folded(b[SkipPunct(b)..])
  {
    StrCiCmpZero(a[SkipPunct(a)..], b[SkipPunct(b)..]);
    StrCiCmp(a[SkipPunct(a)..], b[SkipPunct(b)..])
  }

  /** The characters compare_reverse visits: from the last non-punctuation character back to the first */
  function RevKey(s: seq<char>): (r: seq<char>)
    ensures s == [] ==> r == []
    ensures s != [] ==> |r| == LastWord(s) + 1 && forall i :: 0 <= i < |r| ==> r[i] == s[LastWord(s) - i]
  {
    if s == [] then [] else
      var k := LastWord(s);
      seq(k + 1, i requires 0 <= i <= k => s[k - i])
  }

  /** Lowering the case of a non-empty string lowers its first character, then the rest. */
  lemma FoldedCons(s: seq<char>)
    requires s != []
    ensures Folded(s) == [ToLower(s[0])] + Folded(s[1..])
  {
  }

  /**
   * The second sequence is, ignoring case, a proper prefix of the first: a
   * walk down both passes the end of the second one while the first goes on.
   */
  predicate RunsOff(ra: seq<char>, rb: seq<char>) {
    |rb| < |ra| && Folded(ra[..|rb|]) == Folded(rb)
  }

  /**
   * The walk of compare_reverse over the visited characters: it stops at the
   * first difference or after the last character of the first sequence. When
   * the second one runs out first, the byte read is the one before the line,
   * the terminator of the previous line in the buffer, which At supplies.
   */
  function RevWalk(ra: seq<char>, rb: seq<char>): (d: int)
    requires IsCString(ra) && IsCString(rb)
    ensures d != 0 ==> d == StrCiCmp(ra, rb)
    ensures d == 0 ==> StrCiCmp(ra, rb) <= 0
    decreases |ra|
  {
    var d := ToLower(At(ra, 0)) - ToLower(At(rb, 0));
    if d != 0 || |ra| <= 1 then
      assert |ra| == 1 && d == 0 ==> StrCiCmp(ra, rb) == StrCiCmp([], rb[1..]);
      d
    else RevWalk(ra[1..], rb[1..])
  }

  /**
   * The walk is strcicmp on the visited characters, except exactly when a
   * non-empty first sequence is a proper prefix of the second, ignoring case:
   * the walk then stops at the end of the first one and answers 0, while
   * strcicmp goes on to the terminator and answers below 0.
   */
  lemma {:induction false} RevWalkIsStrCiCmp(ra: seq<char>, rb: seq<char>)
    requires IsCString(ra) && IsCString(rb)
    ensures RevWalk(ra, rb) == StrCiCmp(ra, rb) <==> !(ra != [] && RunsOff(rb, ra))
    ensures ra != [] && RunsOff(rb, ra) ==> RevWalk(ra, rb) == 0 && StrCiCmp(ra, rb) < 0
    decreases |ra|
  {
    var d := ToLower(At(ra, 0)) - ToLower(At(rb, 0));
    if ra == [] {
    } else if d != 0 {
      if |ra| < |rb| {
        FoldedCons(rb[..|ra|]);
        FoldedCons(ra);
      }
    } else {
      assert rb != [];
      FoldedCons(ra);
      if |ra| < |rb| {
        FoldedCons(rb[..|ra|]);
      }
      if |ra| == 1 {
        assert StrCiCmp(ra, rb) == StrCiCmp([], rb[1..]);
        assert |ra| < |rb| ==> Folded(ra[1..]) == Folded(rb[..|ra|][1..]) == [];
      } else {
        RevWalkIsStrCiCmp(ra[1..], rb[1..]);
        if |ra| < |rb| {
          assert rb[..|ra|][1..] == rb[1..][..|ra| - 1];
        }
      }
    }
  }

  /**
   * compare_reverse. It agrees with strcicmp on the visited characters except
   * when those of the first line are a proper prefix of the second line's,
   * ignoring case, where it answers 0 instead of a negative value.
   */
  function CompareReverse(a: seq<char>, b: seq<char>): (d: int)
    requires IsCString(a) && IsCString(b)
    ensures d == StrCiCmp(RevKey(a), RevKey(b)) <==> !(a != [] && RunsOff(RevKey(b), RevKey(a)))
    ensures d != 0 ==> d == StrCiCmp(RevKey(a), RevKey(b))
  {
    assert forall i :: 0 <= i < |RevKey(a)| ==> RevKey(a)[i] in a;
    assert forall i :: 0 <= i < |RevKey(b)| ==> RevKey(b)[i] in b;
    RevWalkIsStrCiCmp(RevKey(a), RevKey(b));
    RevWalk(RevKey(a), RevKey(b))
  }

  /**
   * compare_reverse is no consistent comparator: "ring" against "bring" is 0,
   * while "bring" against "ring" is 'b', since the walk reads the terminator
   * before "ring".
   */
  lemma RingBring()
    ensures CompareReverse("ring", "bring") == 0
    ensures CompareReverse("bring", "ring") == 'b' as int
  {
    RingKeys();
    assert RevWalk("gnir", "gnirb") == 0;
    assert RevWalk("gnirb", "gnir") == RevWalk("b", "") == 'b' as int;
  }

  /** The characters compare_reverse visits in "ring" and "bring" */
  lemma RingKeys()
    ensures RevKey("ring") == "gnir" && RevKey("bring") == "gnirb"
  {
    assert LastWord("ring") == 3 && LastWord("bring") == 4;
  }

  // ---------------------------------------------------------------------------
  // sort_text

  /** Every line of the index is a C string. */
  predicate AllCStrings(lines: seq<seq<char>>) {
    forall i :: 0 <= i < |lines| ==> IsCString(lines[i])
  }

  /** The characters a line is ordered by: from its first non-punctuation character, or those compare_reverse visits */
  function SortKey(s: seq<char>, fromEnd: bool): seq<char> {
    if fromEnd then RevKey(s) else s[SkipPunct(s)..]
  }

  /** x may precede y */
  predicate Before(x: seq<char>, y: seq<char>, fromEnd: bool) {
    StrCiCmp(SortKey(x, fromEnd), SortKey(y, fromEnd)) <= 0
  }

  /**
   * The order the lines are sorted by: compare's from the start. From the end
   * it is strcicmp on the characters compare_reverse visits, which is a total
   * preorder where compare_reverse itself is not (RingBring).
   */
  function Order(fromEnd: bool): (seq<char>, seq<char>) -> bool {
    (x, y) => Before(x, y, fromEnd)
  }

  /** Either order is a total preorder, so a sort by it is well defined. */
  lemma OrderPreorder(fromEnd: bool)
    ensures Sorting.Total(Order(fromEnd)) && Sorting.Transitive(Order(fromEnd))
  {
    forall x, y
      ensures Order(fromEnd)(x, y) || Order(fromEnd)(y, x)
    {
      StrCiCmpAntisymmetric(SortKey(x, fromEnd), SortKey(y, fromEnd));
    }
    forall x, y, z | Order(fromEnd)(x, y) && Order(fromEnd)(y, z)
      ensures Order(fromEnd)(x, z)
    {
      StrCiCmpTransitive(SortKey(x, fromEnd), SortKey(y, fromEnd), SortKey(z, fromEnd));
    }
  }

  predicate Sorted(lines: seq<seq<char>>, fromEnd: bool) {
    forall i, j :: 0 <= i < j < |lines| ==> Before(lines[i], lines[j], fromEnd)
  }

  /**
   * sort_text: untouched under KEYS_NO_SORT; otherwise a permutation sorted
   * from the end under KEYS_SORT_FROM_END, or from the start.
   */
  function SortText(lines: seq<seq<char>>, keys: Keys): (r: seq<seq<char>>)
    requires AllCStrings(lines)
    ensures AllCStrings(r) && multiset(r) == multiset(lines)
    ensures NoSort in keys ==> r == lines
    ensures NoSort !in keys ==> Sorted(r, SortFromEnd in keys)
  {
    if NoSort in keys then lines
    else
      var fromEnd := SortFromEnd in keys;
      OrderPreorder(fromEnd);
      var r := Sorting.SortBy(lines, Order(fromEnd));
      Sorting.PermutationMembers(r, lines);
      r
  }

  /** Sorted from the start means that compare never finds a later line smaller. */
  lemma SortedByCompare(lines: seq<seq<char>>, i: int, j: int)
    requires AllCStrings(lines) && Sorted(lines, false) && 0 <= i < j < |lines|
    ensures Compare(lines[i], lines[j]) <= 0 && Compare(lines[j], lines[i]) >= 0
  {
    assert Before(lines[i], lines[j], false);
    StrCiCmpAntisymmetric(SortKey(lines[i], false), SortKey(lines[j], false));
  }

  /**
   * Sorted from the end means that compare_reverse never finds a later line
   * smaller, nor an earlier one larger.
   */
  lemma SortedByCompareReverse(lines: seq<seq<char>>, i: int, j: int)
    requires AllCStrings(lines) && Sorted(lines, true) && 0 <= i < j < |lines|
    ensures CompareReverse(lines[i], lines[j]) <= 0
    ensures CompareReverse(lines[j], lines[i]) >= 0
  {
    var a, b := RevKey(lines[i]), RevKey(lines[j]);
    assert Before(lines[i], lines[j], true);
    StrCiCmpAntisymmetric(a, b);
  }

  // ---------------------------------------------------------------------------
  // print_text

  /** A line as print_text writes it: numbered under KEYS_ENUMERATE */
  datatype Entry = Bare(text: seq<char>) | Numbered(number: nat, text: seq<char>)

  /** The lines that are not empty, in order */
  function NonEmpty(lines: seq<seq<char>>): (r: seq<seq<char>>)
    ensures |r| <= |lines|
    ensures forall i :: 0 <= i < |r| ==> r[i] != []
    ensures forall x :: x in r <==> x in lines && x != []
  {
    if lines == [] then []
    else
      var last := lines[|lines| - 1];
      assert lines == lines[..|lines| - 1] + [last];
      NonEmpty(lines[..|lines| - 1]) + (if last == [] then [] else [last])
  }

  /** The entries for a run of texts, numbered from 1 when enumerate */
  function Entries(texts: seq<seq<char>>, enumerate: bool): seq<Entry> {
    seq(|texts|, i requires 0 <= i < |texts| => if enumerate then Numbered(i + 1, texts[i]) else Bare(texts[i]))
  }

  /** One more text adds one more entry, numbered after the others. */
  lemma EntriesSnoc(texts: seq<seq<char>>, x: seq<char>, enumerate: bool)
    ensures Entries(texts + [x], enumerate)
         == Entries(texts, enumerate) + [if enumerate then Numbered(|texts| + 1, x) else Bare(x)]
  {
  }

  /** Walking one line further back appends that line to the reversed order. */
  lemma ReversedStep<T>(s: seq<T>, i: int)
    requires 0 <= i < |s|
    ensures Reversed(s[i..]) == Reversed(s[i + 1..]) + [s[i]]
  {
  }

  /** What print_text writes, line by line */
  function Printed(lines: seq<seq<char>>, keys: Keys): seq<Entry> {
    Entries(NonEmpty(if Reverse in keys then Reversed(lines) else lines), Enumerate in keys)
  }

  /** The texts written, in order */
  function Texts(entries: seq<Entry>): (r: seq<seq<char>>)
    ensures |r| == |entries| && forall i :: 0 <= i < |r| ==> r[i] == entries[i].text
  {
    seq(|entries|, i requires 0 <= i < |entries| => entries[i].text)
  }

  /**
   * print_text skips the empty lines and writes every other one, from the last
   * under KEYS_REVERSE; under KEYS_ENUMERATE the written lines are numbered
   * 1, 2, ... in the order written, and otherwise they are not numbered.
   */
  lemma PrintedLines(lines: seq<seq<char>>, keys: Keys)
    ensures var order := if Reverse in keys then Reversed(lines) else lines;
      Texts(Printed(lines, keys)) == NonEmpty(order)
    ensures forall e :: e in Printed(lines, keys) ==> e.text != [] && e.text in lines
    ensures forall x :: x in lines && x != [] ==> exists e :: e in Printed(lines, keys) && e.text == x
    ensures forall i :: 0 <= i < |Printed(lines, keys)| ==>
      if Enumerate in keys then Printed(lines, keys)[i].Numbered? && Printed(lines, keys)[i].number == i + 1
      else Printed(lines, keys)[i].Bare?
  {
    var order := if Reverse in keys then Reversed(lines) else lines;
    var p := Printed(lines, keys);
    assert Texts(p) == NonEmpty(order);
    assert forall x :: x in order <==> x in lines by {
      forall x | x in lines ensures x in order {
        var i :| 0 <= i < |lines| && lines[i] == x;
        if Reverse in keys {
          assert order[|lines| - 1 - i] == x;
        }
      }
    }
    forall x | x in lines && x != []
      ensures exists e :: e in p && e.text == x
    {
      var k :| 0 <= k < |NonEmpty(order)| && NonEmpty(order)[k] == x;
      assert p[k].text == x;
    }
    forall e | e in p
      ensures e.text != [] && e.text in lines
    {
      var k :| 0 <= k < |p| && p[k] == e;
      assert e.text == NonEmpty(order)[k];
    }
  }

  /** Dropping empty lines commutes with reversing the order. */
  lemma {:induction false} NonEmptyReversed(lines: seq<seq<char>>)
    ensures NonEmpty(Reversed(lines)) == Reversed(NonEmpty(lines))
    decreases |lines|
  {
    if lines != [] {
      var init, last := lines[..|lines| - 1], lines[|lines| - 1];
      NonEmptyReversed(init);
      assert Reversed(lines) == [last] + Reversed(init);
      NonEmptyCons(last, Reversed(init));
      var tail := if last == [] then [] else [last];
      assert Reversed(NonEmpty(init) + tail) == tail + Reversed(NonEmpty(init));
    }
  }

  /** NonEmpty of a line in front */
  lemma {:induction false} NonEmptyCons(x: seq<char>, lines: seq<seq<char>>)
    ensures NonEmpty([x] + lines) == (if x == [] then [] else [x]) + NonEmpty(lines)
    decreases |lines|
  {
    if lines != [] {
      var init, last := lines[..|lines| - 1], lines[|lines| - 1];
      assert ([x] + lines)[..|lines|] == [x] + init;
      NonEmptyCons(x, init);
    } else {
      assert [x][..0] == [];
    }
  }

  /** Under KEYS_REVERSE the same lines are written in the opposite order. */
  lemma PrintedReverse(lines: seq<seq<char>>, keys: Keys)
    ensures Texts(Printed(lines, keys + {Reverse})) == Reversed(Texts(Printed(lines, keys - {Reverse})))
  {
    PrintedLines(lines, keys + {Reverse});
    PrintedLines(lines, keys - {Reverse});
    NonEmptyReversed(lines);
  }

  /** print_text, with the file writes as the sequence of entries written */
  method PrintText(lines: seq<seq<char>>, keys: Keys) returns (written: seq<Entry>)
    requires AllCStrings(lines)
    ensures written == Printed(lines, keys)
  {
    if Reverse in keys {
      written := PrintBackward(lines, Enumerate in keys);
    } else {
      written := PrintForward(lines, Enumerate in keys);
    }
  }

  /** The loop of print_text that walks the index from its last line to its first */
  method PrintBackward(lines: seq<seq<char>>, enumerate: bool) returns (written: seq<Entry>)
    ensures written == Entries(NonEmpty(Reversed(lines)), enumerate)
  {
    written := [];
    var number := 1;
    var i := |lines| - 1;
    while i >= 0
      invariant -1 <= i < |lines|
      invariant written == Entries(NonEmpty(Reversed(lines[i + 1..])), enumerate)
      invariant number == |written| + 1
    {
      ReversedStep(lines, i);
      if lines[i] != [] {
        EntriesSnoc(NonEmpty(Reversed(lines[i + 1..])), lines[i], enumerate);
        written := written + [if enumerate then Numbered(number, lines[i]) else Bare(lines[i])];
        number := number + 1;
      }
      i := i - 1;
    }
    assert lines[0..] == lines;
  }

  /** The loop of print_text that walks the index from its first line to its last */
  method PrintForward(lines: seq<seq<char>>, enumerate: bool) returns (written: seq<Entry>)
    ensures written == Entries(NonEmpty(lines), enumerate)
  {
    written := [];
    var number := 1;
    var i := 0;
    while i < |lines|
      invariant 0 <= i <= |lines|
      invariant written == Entries(NonEmpty(lines[..i]), enumerate)
      invariant number == |written| + 1
    {
      assert lines[..i + 1][..i] == lines[..i];
      if lines[i] != [] {
        EntriesSnoc(NonEmpty(lines[..i]), lines[i], enumerate);
        written := written + [if enumerate then Numbered(number, lines[i]) else Bare(lines[i])];
        number := number + 1;
      }
      i := i + 1;
    }
    assert lines[..i] == lines;
  }
}
