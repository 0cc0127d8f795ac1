/** _getopt_internal_r of lib/getopt.c, in each ordering, and the scan of a whole
    argument vector. */
module Getopt {
  import opened Common
  import opened GetoptExchange

  // ---------- what an argument is ----------

  /** NONOPTION_P */
  predicate NonOption(arg: string) {
    |arg| == 0 || arg[0] != '-' || |arg| == 1
  }

  datatype HasArg = NoArgument | RequiredArgument | OptionalArgument

  /** struct option; a `flag` of 0 is a null pointer. */
  datatype LongOption = LongOption(name: string, hasArg: HasArg, flag: int, val: int)

  datatype Ordering = RequireOrder | Permute | ReturnInOrder

  /** The options of the program, and whether POSIXLY_CORRECT holds, by argument or
      environment. */
  datatype Options = Options(optstring: string, longopts: Option<seq<LongOption>>, posixlyCorrect: bool) {

    function Order(): Ordering {
      if optstring != "" && optstring[0] == '-' then ReturnInOrder
      else if (optstring != "" && optstring[0] == '+') || posixlyCorrect then RequireOrder
      else Permute
    }

    /** The option string begins with a character that chooses the ordering. */
    predicate HasPrefix() {
      optstring != "" && (optstring[0] == '-' || optstring[0] == '+')
    }

    /** The option string without that character. */
    function Stripped(): string {
      if HasPrefix() then optstring[1..] else optstring
    }

    /** Where the code looks option characters up: the prefix is stripped from a copy
        that lives only as long as the first call. */
    function First(): Tables {
      Tables(Stripped(), optstring)
    }

    function Later(): Tables {
      Tables(optstring, optstring)
    }

    /** Where they should be looked up. */
    function Intended(): Tables {
      Tables(Stripped(), Stripped())
    }

    /** The option string does not have the "W;" extension. */
    predicate WithoutW() {
      var w := IndexOf(optstring, 'W'); !(w + 1 < |optstring| && optstring[w + 1] == ';')
    }
  }

  /** The option characters for the next report, and for those after it. */
  datatype Tables = Tables(now: string, later: string) {
    function Next(): Tables {
      Tables(later, later)
    }
  }

  /** Position of c in s, |s| when it is not there: strchr. */
  function IndexOf(s: string, c: char): (i: nat)
    ensures i <= |s|
    ensures i < |s| ==> s[i] == c
    ensures forall k :: 0 <= k < i ==> s[k] != c
  {
    if s == [] || s[0] == c then 0 else 1 + IndexOf(s[1..], c)
  }

  /** None when c is no option character. */
  function ShortKind(optstring: string, c: char): Option<HasArg> {
    var i := IndexOf(optstring, c);
    if i == |optstring| || c == ':' then None
    else if i + 1 < |optstring| && optstring[i + 1] == ':' then
      Some(if i + 2 < |optstring| && optstring[i + 2] == ':' then OptionalArgument else RequiredArgument)
    else Some(NoArgument)
  }

  predicate IsLong(o: Options, arg: string) {
    o.longopts.Some? && |arg| > 1 && arg[1] == '-'
  }

  // ---------- the names of long options ----------

  datatype Match = Unrecognized | Ambiguous | Found(index: nat)

  predicate SameEffect(p: LongOption, q: LongOption) {
    p.hasArg == q.hasArg && p.flag == q.flag && p.val == q.val
  }

  /** The first option with exactly this name, |long| when there is none. */
  function Exact(long: seq<LongOption>, name: string): (i: nat)
    ensures i <= |long| && (i < |long| ==> long[i].name == name)
    ensures forall k :: 0 <= k < i ==> long[k].name != name
  {
    if long == [] || long[0].name == name then 0 else 1 + Exact(long[1..], name)
  }

  /** The first option that the name abbreviates. */
  function Abbreviated(long: seq<LongOption>, name: string): (i: nat)
    ensures i <= |long| && (i < |long| ==> name <= long[i].name)
    ensures forall k :: 0 <= k < i ==> !(name <= long[k].name)
  {
    if long == [] || name <= long[0].name then 0 else 1 + Abbreviated(long[1..], name)
  }

  /** An exact name wins; an abbreviation must fit one option, or several that do the
      same. */
  function MatchLong(long: seq<LongOption>, name: string): (m: Match)
    ensures m.Found? ==> m.index < |long|
  {
    var e, f := Exact(long, name), Abbreviated(long, name);
    if e < |long| then Found(e)
    else if f == |long| then Unrecognized
    else if exists k :: f < k < |long| && name <= long[k].name && !SameEffect(long[f], long[k]) then Ambiguous
    else Found(f)
  }

  /** The loop over the long options. */
  method FindLong(long: seq<LongOption>, name: string) returns (m: Match)
    ensures m == MatchLong(long, name)
  {
    var found: Option<nat>, ambig, i := None, false, 0;
    while i < |long|
      invariant i <= |long| && forall k :: 0 <= k < i ==> long[k].name != name
      invariant found.None? ==> !ambig && forall k :: 0 <= k < i ==> !(name <= long[k].name)
      invariant found.Some? ==>
                  && found.value < i && name <= long[found.value].name
                  && (forall k :: 0 <= k < found.value ==> !(name <= long[k].name))
                  && (ambig <==> exists k :: found.value < k < i && name <= long[k].name
                                             && !SameEffect(long[found.value], long[k]))
    {
      if name <= long[i].name {
        if |name| == |long[i].name| {
          assert name == long[i].name[..|name|] == long[i].name;
          return Found(i);
        } else if found.None? {
          found := Some(i);
        } else if !SameEffect(long[found.value], long[i]) {
          ambig := true;
        }
      }
      i := i + 1;
    }
    if ambig {
      return Ambiguous;
    }
    return if found.Some? then Found(found.value) else Unrecognized;
  }

  // ---------- the specification: one pass over the original arguments ----------

  /** What one call reports. */
  datatype Item =
    | Short(c: char, arg: Option<string>)
    | Long(index: nat, arg: Option<string>)
    | Operand(element: string)
    | BadOption(c: char)
    | BadLong(element: string, optopt: int)
    | MissingArgument(element: string, optopt: int)

  /** What optarg points to when the item is reported. */
  function Argument(item: Item): Option<string> {
    match item
    case Short(_, arg) => arg
    case Long(_, arg) => arg
    case Operand(element) => Some(element)
    case _ => None
  }

  /** What a call sets besides: optopt, the variable longind points to, and those that
      the flag members of long options point to. */
  datatype Outside = Outside(optopt: int, longind: int, flags: map<int, int>)

  function Effect(o: Options, item: Item, before: Outside): Outside {
    match item
    case BadOption(c) => before.(optopt := c as int)
    case BadLong(_, optopt) => before.(optopt := optopt)
    case MissingArgument(_, optopt) => before.(optopt := optopt)
    case Long(i, _) =>
      var named := before.(longind := i);
      if o.longopts.None? || i >= |o.longopts.value| || o.longopts.value[i].flag == 0 then named
      else named.(flags := before.flags[o.longopts.value[i].flag := o.longopts.value[i].val])
    case _ => before
  }

  /** What a missing argument is reported with. */
  function Missing(table: string): int {
    (if table != "" && table[0] == ':' then ':' else '?') as int
  }

  /** The value with which the item is reported. */
  function Code(o: Options, table: string, item: Item): int {
    match item
    case Short(c, _) => c as int
    case Long(i, _) =>
      if o.longopts.None? || i >= |o.longopts.value| || o.longopts.value[i].flag != 0 then 0
      else o.longopts.value[i].val
    case Operand(_) => 1
    case MissingArgument(_, _) => Missing(table)
    case _ => '?' as int
  }

  /** One option character: the element goes on, or it ends here and takes
      `extra` of the following elements. */
  datatype Step = More(item: Item) | Last(item: Item, extra: nat)

  function ShortStep(table: string, chars: string, following: seq<string>): (r: Step)
    requires chars != ""
    ensures r.More? ==> |chars| > 1
    ensures r.Last? ==> r.extra <= 1 && r.extra <= |following|
  {
    var c, rest := chars[0], chars[1..];
    match ShortKind(table, c)
    case None =>
      if rest == "" then Last(BadOption(c), 0) else More(BadOption(c))
    case Some(NoArgument) =>
      if rest == "" then Last(Short(c, None), 0) else More(Short(c, None))
    case Some(OptionalArgument) =>
      Last(Short(c, if rest == "" then None else Some(rest)), 0)
    case Some(RequiredArgument) =>
      if rest != "" then Last(Short(c, Some(rest)), 0)
      else if following == [] then Last(MissingArgument([c], c as int), 0)
      else Last(Short(c, Some(following[0])), 1)
  }

  /** The items of the option characters chars (the rest of one element), given
      the elements after it, and how many of those are taken as arguments. */
  function Cluster(t: Tables, chars: string, following: seq<string>): (r: (seq<Item>, nat))
    requires chars != ""
    ensures r.1 <= 1 && r.1 <= |following|
    decreases |chars|
  {
    match ShortStep(t.now, chars, following)
    case More(item) => var r := Cluster(t.Next(), chars[1..], following); ([item] + r.0, r.1)
    case Last(item, extra) => ([item], extra)
  }

  /** An element "--name" or "--name=argument". */
  function LongElement(o: Options, arg: string, following: seq<string>): (r: (seq<Item>, nat))
    requires IsLong(o, arg)
    ensures r.1 <= 1 && r.1 <= |following|
  {
    var chars := arg[2..];
    var n := IndexOf(chars, '=');
    match MatchLong(o.longopts.value, chars[..n])
    case Found(i) =>
      var p := o.longopts.value[i];
      if n < |chars| then
        ([if p.hasArg == NoArgument then BadLong(arg, p.val) else Long(i, Some(chars[n + 1..]))], 0)
      else if p.hasArg != RequiredArgument then ([Long(i, None)], 0)
      else if following == [] then ([MissingArgument(arg, p.val)], 0)
      else ([Long(i, Some(following[0]))], 1)
    case _ => ([BadLong(arg, 0)], 0)
  }

  /** An argument vector, read: what is reported, the elements that are options
      or their arguments (with a terminating "--"), and the others. */
  datatype Parsed = Parsed(items: seq<Item>, options: seq<string>, operands: seq<string>)

  function Element(o: Options, t: Tables, arg: string, following: seq<string>): (r: (seq<Item>, nat))
    requires !NonOption(arg)
    ensures r.1 <= 1 && r.1 <= |following|
  {
    if IsLong(o, arg) then LongElement(o, arg, following) else Cluster(t, arg[1..], following)
  }

  function Parse(o: Options, t: Tables, args: seq<string>): (p: Parsed)
    ensures |p.options| + |p.operands| == |args|
    decreases |args|
  {
    if args == [] then Parsed([], [], [])
    else if NonOption(args[0]) then
      match o.Order()
      case RequireOrder => Parsed([], [], args)
      case ReturnInOrder => After(o, t, [Operand(args[0])], 0, args)
      case Permute =>
        var p := Parse(o, t, args[1..]);
        p.(operands := [args[0]] + p.operands)
    else if args[0] == "--" then Parsed([], [args[0]], args[1..])
    else
      var (items, extra) := Element(o, t, args[0], args[1..]);
      After(o, t, items, extra, args)
  }

  /** The element at the front reports items and takes extra arguments. */
  function After(o: Options, t: Tables, items: seq<Item>, extra: nat, args: seq<string>): (p: Parsed)
    requires |args| >= 1 + extra
    ensures |p.options| + |p.operands| == |args|
    decreases |args|, 0
  {
    var p := Parse(o, t.Next(), args[1 + extra..]);
    Parsed(items + p.items, args[..1 + extra] + p.options, p.operands)
  }

  /** The same from the middle of an element: chars are its unread characters. */
  function ParseFrom(o: Options, t: Tables, chars: string, args: seq<string>): (p: Parsed)
    requires chars != "" ==> args != []
    ensures |p.options| + |p.operands| == |args|
  {
    if chars == "" then Parse(o, t, args)
    else
      var (items, extra) := Cluster(t, chars, args[1..]);
      After(o, t, items, extra, args)
  }

  // ---------- the state between calls ----------

  /** The segment invariant.  s is the vector as permuted so far; [first, last)
      holds the operands skipped so far, [start, first) and [last, optind) the
      options taken so far, and the rest from optind on is as it was given, with
      chars still unread in its first element and t for the option characters.  `got`
      has been reported, and `target` is what the original arguments parse to. */
  ghost predicate Scanned(o: Options, t: Tables, s: seq<string>, start: nat, first: nat, last: nat, optind: nat,
                          chars: string, got: seq<Item>, target: Parsed)
  {
    && start <= first <= last <= optind <= |s|
    && (chars != "" ==> optind < |s| && |s[optind]| > 1 && !IsLong(o, s[optind]))
    && var p := ParseFrom(o, t, chars, s[optind..]);
       target == Parsed(got + p.items, s[start..first] + s[last..optind] + p.options, s[first..last] + p.operands)
  }

  /** Nothing scanned yet. */
  lemma ScanStarts(o: Options, t: Tables, s: seq<string>, start: nat)
    requires start <= |s|
    ensures Scanned(o, t, s, start, start, start, start, "", [], Parse(o, t, s[start..]))
  {
  }

  /** exchange puts all options taken so far before the operands. */
  lemma ExchangeKeeps(o: Options, t: Tables, s: seq<string>, start: nat, first: nat, last: nat, optind: nat,
                      got: seq<Item>, target: Parsed)
    requires Scanned(o, t, s, start, first, last, optind, "", got, target)
    ensures Scanned(o, t, Rotate(s, first, last, optind),
                    start, first + (optind - last), optind, optind, "", got, target)
  {
    hide Parse;
    var t, f := Rotate(s, first, last, optind), first + (optind - last);
    assert t[start..f] == s[start..first] + s[last..optind];
    assert t[f..optind] == s[first..last];
    assert t[optind..] == s[optind..];
    assert t[optind..optind] == [];
  }

  /** Without operands the two segments of options are one. */
  lemma NothingToExchange(o: Options, t: Tables, s: seq<string>, start: nat, first: nat, last: nat, optind: nat,
                          got: seq<Item>, target: Parsed)
    requires Scanned(o, t, s, start, first, last, optind, "", got, target) && first == last
    ensures Scanned(o, t, s, start, optind, optind, optind, "", got, target)
  {
    hide Parse;
    assert s[start..optind] == s[start..first] + s[last..optind];
  }

  lemma SkipKeeps(o: Options, t: Tables, s: seq<string>, start: nat, first: nat, optind: nat, got: seq<Item>,
                  target: Parsed)
    requires Scanned(o, t, s, start, first, optind, optind, "", got, target)
    requires optind < |s| && NonOption(s[optind]) && o.Order() == Permute
    ensures Scanned(o, t, s, start, first, optind + 1, optind + 1, "", got, target)
  {
    var rest := s[optind..];
    assert rest[1..] == s[optind + 1..];
    assert Parse(o, t, rest) == Parse(o, t, rest[1..]).(operands := [s[optind]] + Parse(o, t, rest[1..]).operands);
    hide Parse;
    assert s[first..optind + 1] == s[first..optind] + [s[optind]];
  }

  lemma ScannedBounds(o: Options, t: Tables, s: seq<string>, start: nat, first: nat, last: nat, optind: nat,
                      chars: string, got: seq<Item>, target: Parsed)
    requires Scanned(o, t, s, start, first, last, optind, chars, got, target)
    ensures start <= first <= last <= optind <= |s|
  {
  }

  /** "--" joins the options, and everything after it the operands. */
  lemma DoubleDash(o: Options, t: Tables, s: seq<string>, start: nat, first: nat, optind: nat, got: seq<Item>,
                   target: Parsed)
    requires Scanned(o, t, s, start, first, optind, optind, "", got, target)
    requires optind < |s| && s[optind] == "--"
    ensures target == Parsed(got, s[start..first] + [s[optind]], s[first..optind] + s[optind + 1..])
  {
    var rest := s[optind..];
    assert Parse(o, t, rest) == Parsed([], [rest[0]], rest[1..]);
    hide Parse;
    assert rest[1..] == s[optind + 1..];
    assert s[optind..optind] == [];
    assert got + [] == got;
    assert s[start..first] + [] + [rest[0]] == s[start..first] + [s[optind]];
  }

  /** The front element, or what is left of it, is taken with `extra` more. */
  lemma TakeKeeps(o: Options, t: Tables, s: seq<string>, start: nat, first: nat, last: nat, optind: nat, chars: string,
                  items: seq<Item>, extra: nat, got: seq<Item>, target: Parsed)
    requires Scanned(o, t, s, start, first, last, optind, chars, got, target)
    requires optind + 1 + extra <= |s|
    requires ParseFrom(o, t, chars, s[optind..]) == After(o, t, items, extra, s[optind..])
    ensures Scanned(o, t.Next(), s, start, first, last, optind + 1 + extra, "", got + items, target)
  {
    hide Parse, After, ParseFrom, IsLong;
    var next := optind + 1 + extra;
    var p := Parse(o, t.Next(), s[next..]);
    AfterSlices(o, t, items, extra, s, optind);
    ParseFromStart(o, t.Next(), s[next..]);
    Regroup(s[start..first], s[last..optind], s[optind..next], p.options);
    Regroup([], got, items, p.items);
    assert s[last..next] == s[last..optind] + s[optind..next];
  }

  lemma ParseFromStart(o: Options, t: Tables, args: seq<string>)
    ensures ParseFrom(o, t, "", args) == Parse(o, t, args)
  {
  }

  lemma AfterSlices(o: Options, t: Tables, items: seq<Item>, extra: nat, s: seq<string>, optind: nat)
    requires optind + 1 + extra <= |s|
    ensures var next := optind + 1 + extra;
            var p := Parse(o, t.Next(), s[next..]);
            After(o, t, items, extra, s[optind..]) == Parsed(items + p.items, s[optind..next] + p.options, p.operands)
  {
    AfterIs(o, t, items, extra, s[optind..]);
    hide Parse, After;
    assert s[optind..][1 + extra..] == s[optind + 1 + extra..];
    assert s[optind..][..1 + extra] == s[optind..optind + 1 + extra];
  }

  lemma ClusterUnfolds(t: Tables, chars: string, following: seq<string>)
    requires chars != ""
    ensures var step := ShortStep(t.now, chars, following);
            match step
            case More(item) =>
              var r := Cluster(t.Next(), chars[1..], following);
              Cluster(t, chars, following) == ([item] + r.0, r.1)
            case Last(item, extra) => Cluster(t, chars, following) == ([item], extra)
  {
    hide ShortStep;
  }

  lemma AfterIs(o: Options, t: Tables, items: seq<Item>, extra: nat, args: seq<string>)
    requires |args| >= 1 + extra
    ensures var p := Parse(o, t.Next(), args[1 + extra..]);
            After(o, t, items, extra, args) == Parsed(items + p.items, args[..1 + extra] + p.options, p.operands)
  {
  }

  lemma Regroup<T>(a: seq<T>, b: seq<T>, c: seq<T>, d: seq<T>)
    ensures a + b + (c + d) == a + (b + c) + d
    ensures b + (c + d) == b + c + d
  {
  }

  // ---------- _getopt_internal_r ----------

  /** What a call returns: -1, or anything else. */
  datatype Result = End | Report(item: Item, code: int)

  /** struct _getopt_data, for one scan. */
  class GetoptData {
    var optind: nat
    var optarg: Option<string>
    var outside: Outside
    var initialized: bool
    var nextchar: Option<string>
    var firstNonopt: nat
    var lastNonopt: nat
    var ordering: Ordering
    ghost var start: nat
    ghost var got: seq<Item>
    ghost var target: Parsed

    /** _GETOPT_DATA_INITIALIZER: optind is 1. */
    constructor ()
      ensures optind == 1 && !initialized && Chars() == ""
    {
      optind, optarg, initialized, nextchar := 1, None, false, None;
      firstNonopt, lastNonopt, ordering, outside := 0, 0, Permute, Outside(0, 0, map[]);
      start, got, target := 0, [], Parsed([], [], []);
    }

    /** The unread characters of the current element. */
    function Chars(): string
      reads this
    {
      if nextchar.Some? then nextchar.value else ""
    }

    /** The segment invariant holds, with t for the option characters. */
    ghost predicate ValidAt(o: Options, t: Tables, argv: seq<string>)
      reads this
    {
      && initialized && 0 < start && o.WithoutW() && ordering == o.Order()
      && (ordering != Permute ==> firstNonopt == lastNonopt)
      && Scanned(o, t, argv, start, firstNonopt, lastNonopt, optind, Chars(), got, target)
    }

    /** The invariant between two calls. */
    ghost predicate Valid(o: Options, argv: seq<string>)
      reads this
    {
      ValidAt(o, o.Later(), argv)
    }

    /** _getopt_initialize: the ordering, and the option string past the character
        that chooses it. */
    method Initialize(o: Options, argv: array<string>) returns (optstring: string)
      requires 0 < optind <= argv.Length
      modifies this`firstNonopt, this`lastNonopt, this`nextchar, this`ordering, this`initialized,
               this`start, this`got, this`target
      ensures optstring == o.First().now && ordering == o.Order()
      ensures start == optind && got == [] && Chars() == "" && target == Parse(o, o.First(), argv[start..])
      ensures o.WithoutW() ==> ValidAt(o, o.First(), argv[..])
    {
      hide Scanned, Parse;
      firstNonopt, lastNonopt := optind, optind;
      nextchar := None;
      optstring := o.optstring;
      if optstring != "" && optstring[0] == '-' {
        ordering, optstring := ReturnInOrder, optstring[1..];
      } else if optstring != "" && optstring[0] == '+' {
        ordering, optstring := RequireOrder, optstring[1..];
      } else if o.posixlyCorrect {
        ordering := RequireOrder;
      } else {
        ordering := Permute;
      }
      initialized := true;
      start, got, target := optind, [], Parse(o, o.First(), argv[optind..]);
      assert argv[optind..] == argv[..][optind..];
      ScanStarts(o, o.First(), argv[..], optind);
    }

    /** exchange */
    method Exchange(o: Options, t: Tables, argv: array<string>)
      requires ValidAt(o, t, argv[..]) && Chars() == ""
      modifies this`firstNonopt, this`lastNonopt, argv
      ensures argv[..] == Rotate(old(argv[..]), old(firstNonopt), old(lastNonopt), optind)
      ensures firstNonopt == old(firstNonopt) + (optind - old(lastNonopt)) && lastNonopt == optind
      ensures ValidAt(o, t, argv[..]) && argv[..][..start] == old(argv[..])[..start]
    {
      hide Scanned, Rotate;
      ScannedBounds(o, t, argv[..], start, firstNonopt, lastNonopt, optind, "", got, target);
      ExchangeKeeps(o, t, argv[..], start, firstNonopt, lastNonopt, optind, got, target);
      RotateOutside(argv[..], start, firstNonopt, lastNonopt, optind);
      ghost var s := argv[..];
      RotateInPlace(argv, firstNonopt, lastNonopt, optind);
      firstNonopt := firstNonopt + (optind - lastNonopt);
      lastNonopt := optind;
    }

    /** The scan is over: optind is the boundary between the options, in their
        original order, and the operands in theirs. */
    ghost predicate Finished(argv: seq<string>)
      reads this
    {
      start <= optind <= |argv| && target == Parsed(got, argv[start..optind], argv[optind..])
    }

    /** Exchange pending operands and options, or start a new run of operands. */
    method GatherOptions(o: Options, t: Tables, argv: array<string>)
      requires ValidAt(o, t, argv[..]) && Chars() == "" && ordering == Permute
      modifies this`firstNonopt, this`lastNonopt, argv
      ensures ValidAt(o, t, argv[..]) && lastNonopt == optind && argv[..][..start] == old(argv[..])[..start]
    {
      hide Scanned, Rotate;
      if firstNonopt != lastNonopt && lastNonopt != optind {
        Exchange(o, t, argv);
      } else if lastNonopt != optind {
        NothingToExchange(o, t, argv[..], start, firstNonopt, lastNonopt, optind, got, target);
        firstNonopt := optind;
        lastNonopt := optind;  // the source leaves this to the end of the skipping loop
      }
    }

    /** Skip operands. */
    method SkipOperands(o: Options, t: Tables, argv: array<string>)
      requires ValidAt(o, t, argv[..]) && Chars() == "" && lastNonopt == optind && ordering == Permute
      modifies this`optind, this`lastNonopt
      ensures ValidAt(o, t, argv[..]) && lastNonopt == optind >= old(optind)
      ensures optind < argv.Length ==> !NonOption(argv[optind])
    {
      hide Parse, ParseFrom;
      while optind < argv.Length && NonOption(argv[optind])
        invariant old(optind) <= optind <= argv.Length && lastNonopt == optind
        invariant ValidAt(o, t, argv[..])
      {
        SkipKeeps(o, t, argv[..], start, firstNonopt, optind, got, target);
        optind := optind + 1;
        lastNonopt := optind;
      }
    }

    /** The special element "--". */
    method PrematureEnd(o: Options, t: Tables, argv: array<string>)
      requires ValidAt(o, t, argv[..]) && Chars() == "" && (lastNonopt == optind || firstNonopt == lastNonopt)
      requires optind < argv.Length && argv[optind] == "--"
      modifies this`optind, this`firstNonopt, this`lastNonopt, argv
      ensures start <= firstNonopt <= lastNonopt == optind == argv.Length
      ensures target == Parsed(got, argv[..][start..firstNonopt], argv[..][firstNonopt..])
      ensures argv[..][..start] == old(argv[..])[..start]
    {
      hide Scanned, Rotate, NonOption;
      if firstNonopt == lastNonopt {
        NothingToExchange(o, t, argv[..], start, firstNonopt, lastNonopt, optind, got, target);
        DashExchanged(o, t, argv[..], start, optind, optind, got, target);
      } else {
        DashExchanged(o, t, argv[..], start, firstNonopt, optind, got, target);
      }
      optind := optind + 1;
      if firstNonopt != lastNonopt && lastNonopt != optind {
        RotateInPlace(argv, firstNonopt, lastNonopt, optind);
        firstNonopt := firstNonopt + (optind - lastNonopt);
        lastNonopt := optind;
      } else if firstNonopt == lastNonopt {
        firstNonopt := optind;
      }
      lastNonopt := argv.Length;
      optind := argv.Length;
    }

    /** The caller has moved optind back, or not: lines that give firstNonopt and
        lastNonopt rational values. */
    method Clamp()
      modifies this`firstNonopt, this`lastNonopt
      ensures lastNonopt == (if old(lastNonopt) > optind then optind else old(lastNonopt))
      ensures firstNonopt == (if old(firstNonopt) > optind then optind else old(firstNonopt))
    {
      if lastNonopt > optind {
        lastNonopt := optind;
      }
      if firstNonopt > optind {
        firstNonopt := optind;
      }
    }

    /** "--", the end of argv, and backing over the operands skipped. */
    method ReachEnd(o: Options, t: Tables, argv: array<string>) returns (all: bool)
      requires ValidAt(o, t, argv[..]) && Chars() == "" && start <= optind <= argv.Length
      requires ordering == Permute ==> lastNonopt == optind
      modifies this`optind, this`firstNonopt, this`lastNonopt, argv
      ensures argv[..][..start] == old(argv[..])[..start]
      ensures all <==> old(optind) == argv.Length || old(argv[optind]) == "--"
      ensures all ==> Finished(argv[..])
      ensures !all ==> ValidAt(o, t, argv[..]) && optind == old(optind) && argv[..] == old(argv[..])
    {
      hide Scanned;
      if optind != argv.Length && argv[optind] == "--" {
        PrematureEnd(o, t, argv);
      } else if optind == argv.Length {
        if ordering != Permute {
          NothingToExchange(o, t, argv[..], start, firstNonopt, lastNonopt, optind, got, target);
          AllScanned(o, t, argv[..], start, optind, got, target);
        } else {
          AllScanned(o, t, argv[..], start, firstNonopt, got, target);
        }
      }
      if optind == argv.Length {
        if firstNonopt != lastNonopt {
          optind := firstNonopt;
        }
        return true;
      }
      return false;
    }

    /** Advance to the next option element, or to an operand that is not permuted. */
    method Advance(o: Options, t: Tables, argv: array<string>) returns (found: bool)
      requires ValidAt(o, t, argv[..]) && Chars() == ""
      modifies this`optind, this`firstNonopt, this`lastNonopt, argv
      ensures argv[..][..start] == old(argv[..])[..start]
      ensures !found ==> Finished(argv[..])
      ensures found ==> ValidAt(o, t, argv[..]) && old(optind) <= optind < argv.Length
      ensures found ==> if NonOption(argv[optind]) then ordering == ReturnInOrder else argv[optind] != "--"
    {
      hide Scanned;
      ScannedBounds(o, t, argv[..], start, firstNonopt, lastNonopt, optind, Chars(), got, target);
      Clamp();
      if ordering == Permute {
        GatherOptions(o, t, argv);
        SkipOperands(o, t, argv);
      }
      ScannedBounds(o, t, argv[..], start, firstNonopt, lastNonopt, optind, Chars(), got, target);
      var all := ReachEnd(o, t, argv);
      if all {
        return false;
      }
      if NonOption(argv[optind]) && ordering == RequireOrder {
        OperandStops(o, t, argv[..], start, firstNonopt, optind, got, target);
        return false;
      }
      return true;
    }

    /** Describe an operand to the caller and pass it by. */
    method PassOperand(o: Options, ghost t: Tables, argv: array<string>) returns (item: Item, code: int)
      requires ValidAt(o, t, argv[..]) && Chars() == "" && ordering == ReturnInOrder
      requires optind < argv.Length && NonOption(argv[optind])
      modifies this`optind, this`optarg, this`got
      ensures ValidAt(o, t.Next(), argv[..]) && got == old(got) + [item] && optind == old(optind) + 1
      ensures optarg == Argument(item) && code == Code(o, t.now, item) && outside == Effect(o, item, outside)
    {
      hide Scanned;
      OperandReported(o, t, argv[..], start, firstNonopt, optind, got, target);
      item, code := Operand(argv[optind]), 1;
      optarg := Some(argv[optind]);
      optind := optind + 1;
      got := got + [item];
    }

    /** The long option at nextchar, and the argument it takes. */
    method LongOption(o: Options, t: Tables, argv: array<string>) returns (item: Item, code: int)
      requires optind < argv.Length && IsLong(o, argv[optind]) && nextchar == Some(argv[optind][2..])
      requires optarg == None
      modifies this`optind, this`optarg, this`outside, this`nextchar
      ensures optind > old(optind) && Chars() == "" && optarg == Argument(item)
      ensures code == Code(o, t.now, item) && outside == Effect(o, item, old(outside))
      ensures ([item], optind - old(optind) - 1) == LongElement(o, argv[old(optind)], argv[..][old(optind) + 1..])
    {
      hide MatchLong, IndexOf;
      var arg, chars := argv[optind], nextchar.value;
      var nameend := NameEnd(chars);
      var m := FindLong(o.longopts.value, chars[..nameend]);
      optind := optind + 1;
      nextchar := Some("");
      if m == Ambiguous || m == Unrecognized {
        outside := outside.(optopt := 0);
        return BadLong(arg, 0), '?' as int;
      }
      var p := o.longopts.value[m.index];
      if nameend < |chars| {
        if p.hasArg == NoArgument {
          outside := outside.(optopt := p.val);
          return BadLong(arg, p.val), '?' as int;
        }
        optarg := Some(chars[nameend + 1..]);
      } else if p.hasArg == RequiredArgument {
        if optind == argv.Length {
          outside := outside.(optopt := p.val);
          return MissingArgument(arg, p.val), Missing(t.now);
        }
        optarg := Some(argv[optind]);
        optind := optind + 1;
      }
      outside := outside.(longind := m.index);
      item, code := Long(m.index, optarg), p.val;
      if p.flag != 0 {
        outside := outside.(flags := outside.flags[p.flag := p.val]);
        code := 0;
      }
    }

    /** Decode a long option element. */
    method DecodeLong(o: Options, t: Tables, argv: array<string>) returns (item: Item, code: int)
      requires optind < argv.Length && !NonOption(argv[optind]) && argv[optind] != "--" && IsLong(o, argv[optind])
      requires optarg == None && nextchar == Some(argv[optind][2..])
      requires initialized && 0 < start && o.WithoutW() && ordering == o.Order()
      requires ordering != Permute ==> firstNonopt == lastNonopt
      requires Scanned(o, t, argv[..], start, firstNonopt, lastNonopt, optind, "", got, target)
      modifies this`optind, this`optarg, this`outside, this`nextchar, this`got
      ensures ValidAt(o, t.Next(), argv[..]) && Chars() == "" && optind > old(optind) && got == old(got) + [item]
      ensures optarg == Argument(item) && code == Code(o, t.now, item) && outside == Effect(o, item, old(outside))
    {
      hide Scanned, Parse, LongElement, Code, Effect;
      ghost var i, rest := optind, argv[..][optind..];
      ParseElement(o, t, rest);
      assert rest[1..] == argv[..][i + 1..];
      item, code := LongOption(o, t, argv);
      TakeKeeps(o, t, argv[..], start, firstNonopt, lastNonopt, i, "", [item], optind - i - 1, got, target);
      got := got + [item];
    }

    /** The option character at nextchar, and the arguments it takes. */
    method ShortOption(o: Options, t: Tables, argv: array<string>) returns (item: Item, code: int)
      requires Chars() != "" && optind < argv.Length && optarg == None
      modifies this`optind, this`optarg, this`outside, this`nextchar
      ensures optarg == Argument(item) && code == Code(o, t.now, item) && outside == Effect(o, item, old(outside))
      ensures var step := ShortStep(t.now, old(Chars()), argv[..][old(optind) + 1..]);
              && item == step.item
              && (step.More? ==> optind == old(optind) && Chars() == old(Chars())[1..])
              && (step.Last? ==> optind == old(optind) + 1 + step.extra && Chars() == "")
    {
      hide ShortKind;
      var c, rest := nextchar.value[0], nextchar.value[1..];
      nextchar := Some(rest);
      code := c as int;
      if rest == "" {
        optind := optind + 1;
      }
      match ShortKind(t.now, c)
      case None =>
        outside := outside.(optopt := c as int);
        item, code := BadOption(c), '?' as int;
      case Some(NoArgument) =>
        item := Short(c, None);
      case Some(OptionalArgument) =>
        if rest != "" {
          optarg := Some(rest);
          optind := optind + 1;
        } else {
          optarg := None;
        }
        item := Short(c, optarg);
        nextchar := None;
      case Some(RequiredArgument) =>
        if rest != "" {
          item := Short(c, Some(rest));
          optarg := Some(rest);
          optind := optind + 1;
        } else if optind == argv.Length {
          outside := outside.(optopt := c as int);
          item, code := MissingArgument([c], c as int), Missing(t.now);
        } else {
          item := Short(c, Some(argv[optind]));
          optarg := Some(argv[optind]);
          optind := optind + 1;
        }
        nextchar := None;
    }

    /** Decode the next short option character. */
    method DecodeShort(o: Options, t: Tables, argv: array<string>) returns (item: Item, code: int)
      requires ValidAt(o, t, argv[..]) && Chars() != "" && optarg == None
      modifies this`optind, this`optarg, this`outside, this`nextchar, this`got
      ensures ValidAt(o, t.Next(), argv[..]) && got == old(got) + [item] && optarg == Argument(item)
      ensures code == Code(o, t.now, item) && outside == Effect(o, item, old(outside))
      ensures old(optind) <= optind
      ensures optind == old(optind) ==> Chars() != "" && |Chars()| < |old(Chars())|
    {
      hide Scanned, ParseFrom, ShortStep, Code, Effect;
      ghost var i, chars := optind, Chars();
      CurrentElement(o, t, argv[..], start, firstNonopt, lastNonopt, optind, chars, got, target);
      ghost var args, following := argv[..][i..], argv[..][i + 1..];
      assert args[1..] == following;
      ParseCluster(o, t, chars, args);
      item, code := ShortOption(o, t, argv);
      ghost var step := ShortStep(t.now, chars, following);
      if step.More? {
        NextCharacter(o, t, argv[..], start, firstNonopt, lastNonopt, i, chars, item, got, target);
      } else {
        TakeKeeps(o, t, argv[..], start, firstNonopt, lastNonopt, i, chars, [item], step.extra, got, target);
      }
      got := got + [item];
    }

    /** A scan is under way, so the next call goes on with it. */
    predicate Running()
      reads this
    {
      initialized && optind != 0
    }

    /** Every report brings the scan nearer to its end. */
    twostate predicate Advanced()
      reads this
    {
      || optind > old(optind)
      || (optind == old(optind) && Chars() != "" && (old(Chars()) == "" || |Chars()| < |old(Chars())|))
    }

    /** The part of the call that decodes the current element. */
    method Decode(o: Options, t: Tables, argv: array<string>) returns (item: Item, code: int)
      requires initialized && 0 < start && optind < argv.Length
      requires if NonOption(argv[optind]) then ordering == ReturnInOrder else argv[optind] != "--"
      requires Chars() == "" && ValidAt(o, t, argv[..]) && optarg == None
      modifies this`optind, this`optarg, this`outside, this`nextchar, this`got
      ensures ValidAt(o, t.Next(), argv[..]) && got == old(got) + [item] && Advanced() && optarg == Argument(item)
      ensures code == Code(o, t.now, item) && outside == Effect(o, item, old(outside))
    {
      hide Scanned, NonOption, Code, Effect;
      if NonOption(argv[optind]) {
        item, code := PassOperand(o, t, argv);
        return;
      }
      NotEmpty(argv[optind]);
      nextchar := Some(argv[optind][1 + (if o.longopts.Some? && argv[optind][1] == '-' then 1 else 0)..]);
      if IsLong(o, argv[optind]) {
        item, code := DecodeLong(o, t, argv);
      } else {
        StartElement(o, t, argv[..], start, firstNonopt, lastNonopt, optind, got, target);
        item, code := DecodeShort(o, t, argv);
      }
    }

    /** A call once the scan is under way. */
    method Resume(o: Options, t: Tables, argv: array<string>) returns (r: Result)
      requires ValidAt(o, t, argv[..]) && optarg == None
      modifies this`optind, this`optarg, this`outside, this`nextchar, this`firstNonopt, this`lastNonopt, this`got, argv
      ensures optarg == if r.Report? then Argument(r.item) else None
      ensures r.Report? ==> r.code == Code(o, t.now, r.item)
      ensures outside == if r.Report? then Effect(o, r.item, old(outside)) else old(outside)
      ensures start <= argv.Length && argv[..][..start] == old(argv[..])[..start]
      ensures r == End ==> Finished(argv[..]) && got == old(got)
      ensures r.Report? ==> ValidAt(o, t.Next(), argv[..]) && Running() && Advanced() && got == old(got) + [r.item]
    {
      hide Scanned, NonOption, Code, Effect, Argument;
      ScannedBounds(o, t, argv[..], start, firstNonopt, lastNonopt, optind, Chars(), got, target);
      var item, code;
      if Chars() == "" {
        var found := Advance(o, t, argv);
        if !found {
          return End;
        }
        item, code := Decode(o, t, argv);
      } else {
        item, code := DecodeShort(o, t, argv);
      }
      ScannedBounds(o, t.Next(), argv[..], start, firstNonopt, lastNonopt, optind, Chars(), got, target);
      return Report(item, code);
    }

    /** The option characters that the next call looks at. */
    function TablesNow(o: Options): Tables
      reads this
    {
      if Running() then o.Later() else o.First()
    }

    /** _getopt_internal_r */
    method Getopt(o: Options, argv: array<string>) returns (r: Result)
      requires o.WithoutW()
      requires argv.Length == 0 || optind <= argv.Length
      requires if Running() then Valid(o, argv[..]) else Chars() == ""
      modifies this, argv
      ensures argv.Length == 0 ==> r == End
      ensures argv.Length > 0 ==> optarg == if r.Report? then Argument(r.item) else None
      ensures r.Report? ==> r.code == Code(o, old(TablesNow(o)).now, r.item)
      ensures outside == if r.Report? then Effect(o, r.item, old(outside)) else old(outside)
      ensures argv.Length > 0 ==> start <= argv.Length && argv[..][..start] == old(argv[..])[..start]
      ensures argv.Length > 0 && old(Running()) ==> start == old(start) && target == old(target)
      ensures argv.Length > 0 && !old(Running()) ==>
                && start == (if old(optind) == 0 then 1 else old(optind))
                && target == Parse(o, o.First(), old(argv[..])[start..])
      ensures argv.Length > 0 && r == End ==>
                Finished(argv[..]) && got == if old(Running()) then old(got) else []
      ensures r.Report? ==>
                && argv.Length > 0 && Valid(o, argv[..]) && Running() && Advanced()
                && got == (if old(Running()) then old(got) else []) + [r.item]
    {
      hide Scanned, Parse, Code, Effect, Argument;
      if argv.Length < 1 {
        return End;
      }
      optarg := None;
      var optstring := o.optstring;
      if optind == 0 || !initialized {
        if optind == 0 {
          optind := 1;
        }
        optstring := Initialize(o, argv);
        assert argv[start..] == argv[..][start..];
      }
      r := Resume(o, Tables(optstring, o.optstring), argv);
    }
  }

  /** The end of a long option's name: "=" or the end of the element. */
  method NameEnd(chars: string) returns (n: nat)
    ensures n == IndexOf(chars, '=')
  {
    n := 0;
    while n < |chars| && chars[n] != '='
      invariant n <= |chars| && forall k :: 0 <= k < n ==> chars[k] != '='
    {
      n := n + 1;
    }
  }

  lemma NotEmpty(arg: string)
    requires !NonOption(arg)
    ensures |arg| > 1
  {
  }

  /** Pointing nextchar past the initial "-" of an element. */
  lemma StartElement(o: Options, t: Tables, s: seq<string>, start: nat, first: nat, last: nat, optind: nat,
                     got: seq<Item>, target: Parsed)
    requires Scanned(o, t, s, start, first, last, optind, "", got, target)
    requires optind < |s| && !NonOption(s[optind]) && s[optind] != "--" && !IsLong(o, s[optind])
    ensures Scanned(o, t, s, start, first, last, optind, s[optind][1..], got, target)
  {
    ParseElement(o, t, s[optind..]);
    hide Parse;
  }

  /** While characters are unread, their element is still at optind. */
  lemma CurrentElement(o: Options, t: Tables, s: seq<string>, start: nat, first: nat, last: nat, optind: nat,
                       chars: string, got: seq<Item>, target: Parsed)
    requires Scanned(o, t, s, start, first, last, optind, chars, got, target) && chars != ""
    ensures optind < |s| && |s[optind]| > 1 && !IsLong(o, s[optind])
  {
  }

  lemma ParseCluster(o: Options, t: Tables, chars: string, args: seq<string>)
    requires chars != "" && args != []
    ensures var step := ShortStep(t.now, chars, args[1..]);
            step.Last? ==> ParseFrom(o, t, chars, args) == After(o, t, [step.item], step.extra, args)
  {
  }

  /** An option character without argument, with more characters after it. */
  lemma NextCharacter(o: Options, t: Tables, s: seq<string>, start: nat, first: nat, last: nat, optind: nat,
                      chars: string, item: Item, got: seq<Item>, target: Parsed)
    requires Scanned(o, t, s, start, first, last, optind, chars, got, target) && chars != ""
    requires ShortStep(t.now, chars, s[optind + 1..]) == More(item)
    ensures Scanned(o, t.Next(), s, start, first, last, optind, chars[1..], got + [item], target)
  {
    var args := s[optind..];
    assert args[1..] == s[optind + 1..];
    var (items, extra) := Cluster(t.Next(), chars[1..], args[1..]);
    assert Cluster(t, chars, args[1..]) == ([item] + items, extra);
    hide Parse, Cluster, ShortStep, IsLong;
    var p := Parse(o, t.Next(), args[1 + extra..]);
    AfterIs(o, t, [item] + items, extra, args);
    AfterIs(o, t.Next(), items, extra, args);
    Regroup([], got, [item], items + p.items);
    assert [item] + items + p.items == [item] + (items + p.items);
  }

  lemma AllScanned(o: Options, t: Tables, s: seq<string>, start: nat, first: nat, got: seq<Item>, target: Parsed)
    requires Scanned(o, t, s, start, first, |s|, |s|, "", got, target)
    ensures start <= first <= |s|
    ensures target == Parsed(got, s[start..first], s[first..])
  {
    assert s[|s|..] == [] && s[|s|..|s|] == [];
    assert Parse(o, t, []) == Parsed([], [], []);
    assert got + [] == got;
    assert s[start..first] + [] + [] == s[start..first];
  }

  /** In REQUIRE_ORDER the first operand ends the options. */
  lemma OperandStops(o: Options, t: Tables, s: seq<string>, start: nat, first: nat, optind: nat,
                     got: seq<Item>, target: Parsed)
    requires Scanned(o, t, s, start, first, first, optind, "", got, target)
    requires o.Order() == RequireOrder && optind < |s| && NonOption(s[optind])
    ensures start <= optind && target == Parsed(got, s[start..optind], s[optind..])
  {
    assert Parse(o, t, s[optind..]) == Parsed([], [], s[optind..]);
    assert got + [] == got && s[first..first] == [];
    assert s[start..first] + s[first..optind] + [] == s[start..optind];
  }

  /** In RETURN_IN_ORDER an operand is reported like an option. */
  lemma OperandReported(o: Options, t: Tables, s: seq<string>, start: nat, first: nat, optind: nat,
                        got: seq<Item>, target: Parsed)
    requires Scanned(o, t, s, start, first, first, optind, "", got, target)
    requires o.Order() == ReturnInOrder && optind < |s| && NonOption(s[optind])
    ensures Scanned(o, t.Next(), s, start, first, first, optind + 1, "", got + [Operand(s[optind])], target)
  {
    assert ParseFrom(o, t, "", s[optind..]) == After(o, t, [Operand(s[optind])], 0, s[optind..]);
    TakeKeeps(o, t, s, start, first, first, optind, "", [Operand(s[optind])], 0, got, target);
  }

  lemma ParseElement(o: Options, t: Tables, args: seq<string>)
    requires args != [] && !NonOption(args[0]) && args[0] != "--"
    ensures var (items, extra) := Element(o, t, args[0], args[1..]);
            Parse(o, t, args) == After(o, t, items, extra, args)
            && ParseFrom(o, t, "", args) == After(o, t, items, extra, args)
  {
  }

  /** After the exchange "--" ends the options, and when there are no operands to
      exchange it does so already. */
  lemma DashExchanged(o: Options, t: Tables, s: seq<string>, start: nat, first: nat, optind: nat,
                      got: seq<Item>, target: Parsed)
    requires Scanned(o, t, s, start, first, optind, optind, "", got, target)
    requires optind < |s| && s[optind] == "--"
    ensures start <= first <= optind
    ensures var t := Rotate(s, first, optind, optind + 1);
            && t[..start] == s[..start]
            && target == Parsed(got, t[start..first + 1], t[first + 1..])
            && (first == optind ==> t == s)
  {
    ScannedBounds(o, t, s, start, first, optind, optind, "", got, target);
    DoubleDash(o, t, s, start, first, optind, got, target);
    hide Scanned, Rotate;
    RotateOne(s, start, first, optind);
  }

  lemma RotateOne<T>(s: seq<T>, start: nat, first: nat, optind: nat)
    requires start <= first <= optind < |s|
    ensures var t := Rotate(s, first, optind, optind + 1);
            && t[..start] == s[..start]
            && t[start..first + 1] == s[start..first] + [s[optind]]
            && t[first + 1..] == s[first..optind] + s[optind + 1..]
            && (first == optind ==> t == s)
  {
    hide Rotate;
    var p, x, y, z := s[..first], s[first..optind], [s[optind]], s[optind + 1..];
    FourParts(s, first, optind);
    RotateParts(p, x, y, z);
    MovedOne(p, x, y, z, start);
    if first == optind {
      NothingBefore(p, x, y, z);
    }
  }

  lemma FourParts<T>(s: seq<T>, first: nat, optind: nat)
    requires first <= optind < |s|
    ensures s == s[..first] + s[first..optind] + [s[optind]] + s[optind + 1..]
  {
  }

  lemma MovedOne<T>(p: seq<T>, x: seq<T>, y: seq<T>, z: seq<T>, start: nat)
    requires start <= |p| && |y| == 1
    ensures (p + y + x + z)[..start] == p[..start]
    ensures (p + y + x + z)[start..|p| + 1] == p[start..] + y
    ensures (p + y + x + z)[|p| + 1..] == x + z
  {
    FrontOf(p, y + x + z, start);
    assert p + y + x + z == p + (y + x + z);
    assert p + y + x + z == (p + y) + (x + z);
    FrontOf(p + y, x + z, start);
    assert (p + y)[start..] == p[start..] + y;
  }

  lemma FrontOf<T>(a: seq<T>, b: seq<T>, start: nat)
    requires start <= |a|
    ensures (a + b)[..start] == a[..start]
    ensures (a + b)[start..|a|] == a[start..]
    ensures (a + b)[|a|..] == b
  {
  }

  lemma NothingBefore<T>(p: seq<T>, x: seq<T>, y: seq<T>, z: seq<T>)
    requires x == []
    ensures p + y + x + z == p + x + y + z
  {
    assert p + y + x == p + y && p + x == p;
  }

  lemma RotateOutside<T>(s: seq<T>, start: nat, bottom: nat, middle: nat, top: nat)
    requires start <= bottom <= middle <= top <= |s|
    ensures Rotate(s, bottom, middle, top)[..start] == s[..start]
  {
  }

  // ---------- a whole scan ----------

  /** The calls of a program that reads all its options, from the first to the one
      that returns -1. */
  method ScanAll(o: Options, argv: array<string>) returns (items: seq<Item>, optind: nat)
    requires argv.Length > 0 && o.WithoutW()
    modifies argv
    ensures var p := Parse(o, o.First(), old(argv[..])[1..]);
            && items == p.items
            && argv[..] == old(argv[..])[..1] + p.options + p.operands
            && optind == 1 + |p.options|
  {
    hide Parse, Scanned, Code, Effect, Argument;
    ghost var before := argv[..];
    var d := new GetoptData();
    var r := d.Getopt(o, argv);
    items := [];
    while r != End
      invariant fresh(d) && ScanGoes(d, o, before, argv[..], items, r)
      decreases if r == End then 0 else 1 + argv.Length - d.optind, d.Chars() == "", |d.Chars()|
    {
      items := items + [r.item];
      ScannedBounds(o, o.Later(), argv[..], d.start, d.firstNonopt, d.lastNonopt, d.optind, d.Chars(), d.got, d.target);
      r := d.Getopt(o, argv);
    }
    optind := d.optind;
    assert argv[..] == argv[..][..1] + argv[..][1..optind] + argv[..][optind..];
  }

  /** Between two calls of a whole scan, the last of which returned r. */
  ghost predicate ScanGoes(d: GetoptData, o: Options, before: seq<string>, argv: seq<string>, items: seq<Item>,
                           r: Result)
    requires |before| > 0
    reads d
  {
    && |argv| == |before| && d.start == 1 && argv[..1] == before[..1]
    && d.target == Parse(o, o.First(), before[1..])
    && (r == End ==> d.Finished(argv) && d.got == items)
    && (r.Report? ==> d.Running() && d.Valid(o, argv) && d.got == items + [r.item])
  }

  // ---------- what the permutation is ----------

  /** The elements of args that mask selects, in their order. */
  function Select(args: seq<string>, mask: seq<bool>): seq<string>
    requires |mask| == |args|
  {
    if args == [] then []
    else (if mask[0] then [args[0]] else []) + Select(args[1..], mask[1..])
  }

  function Complement(mask: seq<bool>): (m: seq<bool>)
    ensures |m| == |mask|
  {
    seq(|mask|, i requires 0 <= i < |mask| => !mask[i])
  }

  lemma ComplementAppend(m: seq<bool>, n: seq<bool>)
    ensures Complement(m + n) == Complement(m) + Complement(n)
  {
  }

  lemma {:induction false} SelectAppend(a: seq<string>, m: seq<bool>, b: seq<string>, n: seq<bool>)
    requires |m| == |a| && |n| == |b|
    ensures Select(a + b, m + n) == Select(a, m) + Select(b, n)
    decreases |a|
  {
    if a == [] {
      assert a + b == b && m + n == n;
    } else {
      var head := if m[0] then [a[0]] else [];
      SelectStep(a, m);
      SelectStep(a + b, m + n);
      hide Select;
      assert (a + b)[1..] == a[1..] + b && (m + n)[1..] == m[1..] + n;
      SelectAppend(a[1..], m[1..], b, n);
      assert head + (Select(a[1..], m[1..]) + Select(b, n)) == head + Select(a[1..], m[1..]) + Select(b, n);
    }
  }

  lemma SelectStep(a: seq<string>, m: seq<bool>)
    requires |m| == |a| > 0
    ensures Select(a, m) == (if m[0] then [a[0]] else []) + Select(a[1..], m[1..])
  {
  }

  function Same(n: nat, bit: bool): (m: seq<bool>)
    ensures |m| == n
  {
    seq(n, _ => bit)
  }

  lemma {:induction false} SelectSame(args: seq<string>, bit: bool)
    ensures Select(args, Same(|args|, bit)) == if bit then args else []
    ensures Complement(Same(|args|, bit)) == Same(|args|, !bit)
    decreases |args|
  {
    if args != [] {
      assert Same(|args|, bit)[1..] == Same(|args[1..]|, bit);
      SelectSame(args[1..], bit);
    }
  }

  /** A mask that treats the front alike and goes on with `rest`. */
  lemma MaskFront(args: seq<string>, k: nat, bit: bool, rest: seq<bool>)
    requires k <= |args| && |rest| == |args| - k
    ensures Select(args, Same(k, bit) + rest) == (if bit then args[..k] else []) + Select(args[k..], rest)
    ensures Select(args, Complement(Same(k, bit) + rest))
         == (if bit then [] else args[..k]) + Select(args[k..], Complement(rest))
  {
    hide Select, Complement, Same;
    assert args == args[..k] + args[k..];
    SelectSame(args[..k], bit);
    SelectSame(args[..k], !bit);
    SelectAppend(args[..k], Same(k, bit), args[k..], rest);
    ComplementAppend(Same(k, bit), rest);
    SelectAppend(args[..k], Same(k, !bit), args[k..], Complement(rest));
  }

  /** Parsing is a stable partition: one choice of elements, in their original
      order, makes the options, and the others, in theirs, the operands. */
  lemma {:induction false} ParseIsStablePartition(o: Options, t: Tables, args: seq<string>) returns (mask: seq<bool>)
    ensures |mask| == |args|
    ensures Parse(o, t, args).options == Select(args, mask)
    ensures Parse(o, t, args).operands == Select(args, Complement(mask))
    decreases |args|
  {
    ParseNothing(o, t, args);
    hide Parse, Select, Complement, Same, FrontLength, Element;
    if args == [] {
      mask := [];
      SelectSame(args, false);
    } else if NonOption(args[0]) && o.Order() == RequireOrder {
      mask := Same(|args|, false);
      SelectSame(args, false);
      SelectSame(args, true);
    } else {
      FrontParses(o, t, args);
      var k := FrontLength(o, t, args);
      var rest: seq<bool>;
      if !NonOption(args[0]) && args[0] == "--" {
        rest := Same(|args| - k, false);
        SelectSame(args[k..], false);
        SelectSame(args[k..], true);
      } else {
        rest := ParseIsStablePartition(o, FrontTables(o, t, args[0]), args[k..]);
      }
      var bit := !NonOption(args[0]) || o.Order() == ReturnInOrder;
      mask := Same(k, bit) + rest;
      MaskFront(args, k, bit, rest);
      assert args[..k] + [] == args[..k] && [] + args[k..] == args[k..];
    }
  }

  lemma ParseNothing(o: Options, t: Tables, args: seq<string>)
    ensures args == [] ==> Parse(o, t, args) == Parsed([], [], []) && Complement([]) == [] && Same(0, false) == []
    ensures args != [] && NonOption(args[0]) && o.Order() == RequireOrder ==> Parse(o, t, args) == Parsed([], [], args)
  {
  }

  /** How many elements the front of args takes. */
  function FrontLength(o: Options, t: Tables, args: seq<string>): (k: nat)
    requires args != []
    ensures 1 <= k <= |args|
  {
    if NonOption(args[0]) || args[0] == "--" then 1 else 1 + Element(o, t, args[0], args[1..]).1
  }

  /** The option characters after the front. */
  function FrontTables(o: Options, t: Tables, arg: string): Tables {
    if NonOption(arg) && o.Order() == Permute then t else t.Next()
  }

  lemma FrontParses(o: Options, t: Tables, args: seq<string>)
    requires args != [] && !(NonOption(args[0]) && o.Order() == RequireOrder)
    ensures var p, k := Parse(o, t, args), FrontLength(o, t, args);
            var q := Parse(o, FrontTables(o, t, args[0]), args[k..]);
            if NonOption(args[0]) && o.Order() == Permute then p.options == q.options
              && p.operands == args[..k] + q.operands
            else if !NonOption(args[0]) && args[0] == "--" then p.options == args[..k] && p.operands == args[k..]
            else p.options == args[..k] + q.options && p.operands == q.operands
  {
  }

  lemma {:induction false} SelectSplits(args: seq<string>, mask: seq<bool>)
    requires |mask| == |args|
    ensures multiset(Select(args, mask)) + multiset(Select(args, Complement(mask))) == multiset(args)
    decreases |args|
  {
    if args != [] {
      assert args == [args[0]] + args[1..];
      assert Complement(mask)[1..] == Complement(mask[1..]);
      SelectSplits(args[1..], mask[1..]);
    }
  }

  /** Nothing is lost and nothing invented: what ScanAll leaves in argv is a
      permutation of what was there. */
  lemma ParsePermutes(o: Options, t: Tables, args: seq<string>)
    ensures var p := Parse(o, t, args);
            multiset(p.options + p.operands) == multiset(args)
  {
    hide Parse;
    var mask := ParseIsStablePartition(o, t, args);
    SelectSplits(args, mask);
  }
}
